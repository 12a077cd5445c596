/** The build script's `main` with its I/O taken out: the two directory
    listings, the known extensions and the support lookup are parameters,
    and the module text is returned instead of written to `OUT_DIR`. */
module BuildScript {
  import opened Base
  import opened TemplateEscape
  import opened AssetScan
  import opened Bundle
  import opened Render

  /** The exported records and the module text rendered from them. */
  datatype Generated = Generated(entries: seq<BundleEntry>, text: string)

  /** Scan the query directory, then the sample-input directory, join the
      two maps, sort and render. The first failure aborts the run and
      nothing is generated. */
  method Generate(queryDir: Listing, inputDir: Listing, known: set<string>, isSupported: string -> bool)
    returns (out: Result<Generated>)
    ensures ScanResult(queryDir, QueryRule).Abort? ==>
      out == Abort(ScanResult(queryDir, QueryRule).failure)
    ensures ScanResult(queryDir, QueryRule).Ok? && ScanResult(inputDir, InputRule(known)).Abort? ==>
      out == Abort(ScanResult(inputDir, InputRule(known)).failure)
    ensures out.Ok? <==> ScanResult(queryDir, QueryRule).Ok? && ScanResult(inputDir, InputRule(known)).Ok?
    ensures out.Ok? ==>
      && IsBundle(ScanResult(queryDir, QueryRule).value, ScanResult(inputDir, InputRule(known)).value,
                  isSupported, out.value.entries)
      && out.value.text == ModuleText(out.value.entries)
  {
    var queries := Scan(queryDir, QueryRule);
    if queries.Abort? {
      return Abort(queries.failure);
    }
    var inputs := Scan(inputDir, InputRule(known));
    if inputs.Abort? {
      return Abort(inputs.failure);
    }
    var entries := Join(queries.value, inputs.value, isSupported);
    out := Ok(Generated(entries, ModuleText(entries)));
  }

  /** Every exported record carries, as safe template bodies, the text of
      the last `scm` file with its name and the text of the last kept
      sample input with its name: read back as template literals they give
      the files' text unchanged. */
  lemma BundleTextsDecode(queryFiles: seq<DirEntry>, inputFiles: seq<DirEntry>, known: set<string>,
                          isSupported: string -> bool, r: seq<BundleEntry>)
    requires Readable(queryFiles, QueryRule) && Readable(inputFiles, InputRule(known))
    requires IsBundle(Collect(queryFiles, QueryRule).value, Collect(inputFiles, InputRule(known)).value,
                      isSupported, r)
    ensures forall j :: 0 <= j < |r| ==>
      && Safe(r[j].query)
      && Safe(r[j].input)
      && (exists i :: LastKeptAt(queryFiles, QueryRule, r[j].name, i)
                      && Unescape(r[j].query) == Some(queryFiles[i].content.value))
      && (exists i :: LastKeptAt(inputFiles, InputRule(known), r[j].name, i)
                      && Unescape(r[j].input) == Some(inputFiles[i].content.value))
  {
    CollectValuesDecode(queryFiles, QueryRule);
    CollectValuesDecode(inputFiles, InputRule(known));
    var queries := Collect(queryFiles, QueryRule).value;
    var inputs := Collect(inputFiles, InputRule(known)).value;
    forall j | 0 <= j < |r|
      ensures Safe(r[j].query) && Safe(r[j].input)
      ensures exists i :: LastKeptAt(queryFiles, QueryRule, r[j].name, i)
                          && Unescape(r[j].query) == Some(queryFiles[i].content.value)
      ensures exists i :: LastKeptAt(inputFiles, InputRule(known), r[j].name, i)
                          && Unescape(r[j].input) == Some(inputFiles[i].content.value)
    {
      var k := r[j].name;
      assert k in queries && r[j].query == queries[k];
      assert k in inputs && r[j].input == inputs[k];
    }
  }
}
