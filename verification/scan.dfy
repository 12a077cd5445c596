/** The two directory scans of the build script's `main`, with the file
    system replaced by listings given as values. */
module AssetScan {
  import opened Base
  import opened TemplateEscape

  /** One entry of a directory listing: the file stem, the extension
      (`None` when the file name has none) and the file's text (`None` when
      reading it as UTF-8 text fails). */
  datatype DirEntry = DirEntry(stem: string, ext: Option<string>, content: Option<string>)

  /** A directory as `fs::read_dir` reports it, entries in enumeration order. */
  datatype Listing = Unlistable | Listed(entries: seq<DirEntry>)

  /** The extension of query files. */
  const QueryExtension: string := "scm"

  /** The OCaml interface extension, skipped in favour of `ml`. */
  const InterfaceExtension: string := "mli"

  /** Which files a scan keeps: the query scan keeps `scm` files; the input
      scan keeps files whose extension the configuration knows, except
      `mli`. */
  datatype Rule = QueryRule | InputRule(known: set<string>)

  predicate Keeps(rule: Rule, ext: Option<string>) {
    match rule
    case QueryRule => ext == Some(QueryExtension)
    case InputRule(known) => ext.Some? && ext.value in known && ext.value != InterfaceExtension
  }

  function DirectoryOf(rule: Rule): Directory {
    match rule
    case QueryRule => QueryDirectory
    case InputRule(_) => InputDirectory
  }

  /** Every entry the scan keeps can be read. Entries it skips are never
      read, so they cannot make the run fail. */
  predicate Readable(es: seq<DirEntry>, rule: Rule) {
    forall i :: 0 <= i < |es| && Keeps(rule, es[i].ext) ==> es[i].content.Some?
  }

  /** Index `i` holds the first kept entry that cannot be read. */
  predicate FirstUnreadableAt(es: seq<DirEntry>, rule: Rule, i: int) {
    && 0 <= i < |es|
    && Keeps(rule, es[i].ext)
    && es[i].content.None?
    && forall j :: 0 <= j < i && Keeps(rule, es[j].ext) ==> es[j].content.Some?
  }

  /** Index `i` holds the last kept entry whose stem is `k`. */
  predicate LastKeptAt(es: seq<DirEntry>, rule: Rule, k: string, i: int) {
    && 0 <= i < |es|
    && Keeps(rule, es[i].ext)
    && es[i].stem == k
    && forall j :: i < j < |es| ==> !(Keeps(rule, es[j].ext) && es[j].stem == k)
  }

  /** The map a scan builds: each kept entry, in order, inserts its escaped
      text under its stem; the first kept entry that cannot be read aborts
      the run. */
  function Collect(es: seq<DirEntry>, rule: Rule): (r: Result<map<string, string>>)
    ensures r.Ok? <==> Readable(es, rule)
    ensures r.Abort? ==> exists i ::
      && FirstUnreadableAt(es, rule, i)
      && r.failure == FileUnreadable(DirectoryOf(rule), es[i].stem, es[i].ext.value)
    decreases |es|
  {
    if |es| == 0 then Ok(map[])
    else
      var init := es[..|es| - 1];
      var e := es[|es| - 1];
      var prev := Collect(init, rule);
      assert forall j :: 0 <= j < |init| ==> init[j] == es[j];
      if prev.Abort? then
        var i :| FirstUnreadableAt(init, rule, i) && prev.failure == FileUnreadable(DirectoryOf(rule), init[i].stem, init[i].ext.value);
        assert FirstUnreadableAt(es, rule, i);
        prev
      else if !Keeps(rule, e.ext) then prev
      else if e.content.None? then
        assert FirstUnreadableAt(es, rule, |es| - 1);
        Abort(FileUnreadable(DirectoryOf(rule), e.stem, e.ext.value))
      else Ok(prev.value[e.stem := Escape(e.content.value)])
  }

  /** What a scan of a whole directory yields. */
  function ScanResult(listing: Listing, rule: Rule): Result<map<string, string>> {
    match listing
    case Unlistable => Abort(DirectoryUnreadable(DirectoryOf(rule)))
    case Listed(es) => Collect(es, rule)
  }

  /** One step of the fold: a readable listing's map is its prefix's map,
      updated by the last entry when the rule keeps it. */
  lemma CollectStep(es: seq<DirEntry>, rule: Rule)
    requires |es| > 0 && Readable(es, rule)
    ensures Readable(es[..|es| - 1], rule)
    ensures forall j :: 0 <= j < |es| - 1 ==> es[..|es| - 1][j] == es[j]
    ensures Collect(es, rule).value ==
      if Keeps(rule, es[|es| - 1].ext)
      then Collect(es[..|es| - 1], rule).value[es[|es| - 1].stem := Escape(es[|es| - 1].content.value)]
      else Collect(es[..|es| - 1], rule).value
  {
    var init := es[..|es| - 1];
    assert forall j :: 0 <= j < |init| ==> init[j] == es[j];
  }

  /** The keys of a scan are the stems of the kept entries. */
  lemma {:induction false} CollectKeys(es: seq<DirEntry>, rule: Rule)
    requires Readable(es, rule)
    ensures forall k :: k in Collect(es, rule).value <==>
      exists i :: 0 <= i < |es| && Keeps(rule, es[i].ext) && es[i].stem == k
    decreases |es|
  {
    if |es| == 0 {
      return;
    }
    var n := |es| - 1;
    var init := es[..n];
    var e := es[n];
    CollectStep(es, rule);
    CollectKeys(init, rule);
    var prev := Collect(init, rule).value;
    var m := Collect(es, rule).value;
    forall k
      ensures k in m <==> exists i :: 0 <= i < |es| && Keeps(rule, es[i].ext) && es[i].stem == k
    {
      if Keeps(rule, e.ext) && e.stem == k {
        assert k in m;
        assert Keeps(rule, es[n].ext) && es[n].stem == k;
      } else {
        assert k in m <==> k in prev;
        if k in prev {
          var i :| 0 <= i < n && Keeps(rule, init[i].ext) && init[i].stem == k;
          assert es[i] == init[i];
        }
        if exists i :: 0 <= i < |es| && Keeps(rule, es[i].ext) && es[i].stem == k {
          var i :| 0 <= i < |es| && Keeps(rule, es[i].ext) && es[i].stem == k;
          assert i < n && init[i] == es[i];
        }
      }
    }
  }

  /** Each key holds the escaped text of the last kept entry with that
      stem: a later file overwrites an earlier one (last write wins). */
  lemma {:induction false} CollectLastWriteWins(es: seq<DirEntry>, rule: Rule)
    requires Readable(es, rule)
    ensures forall k, i :: LastKeptAt(es, rule, k, i) ==>
      k in Collect(es, rule).value && Collect(es, rule).value[k] == Escape(es[i].content.value)
    decreases |es|
  {
    if |es| == 0 {
      return;
    }
    var n := |es| - 1;
    var init := es[..n];
    var e := es[n];
    CollectStep(es, rule);
    CollectLastWriteWins(init, rule);
    var prev := Collect(init, rule).value;
    var m := Collect(es, rule).value;
    forall k, i | LastKeptAt(es, rule, k, i)
      ensures k in m && m[k] == Escape(es[i].content.value)
    {
      if i < n {
        assert LastKeptAt(init, rule, k, i);
        assert k in prev && prev[k] == Escape(init[i].content.value);
        assert !(Keeps(rule, e.ext) && e.stem == k);
      }
    }
  }

  /** Every key of a scan comes from a last kept entry with that stem. */
  lemma {:induction false} CollectKeySource(es: seq<DirEntry>, rule: Rule)
    requires Readable(es, rule)
    ensures forall k :: k in Collect(es, rule).value ==> exists i :: LastKeptAt(es, rule, k, i)
    decreases |es|
  {
    if |es| == 0 {
      return;
    }
    var n := |es| - 1;
    var init := es[..n];
    var e := es[n];
    CollectStep(es, rule);
    CollectKeySource(init, rule);
    var m := Collect(es, rule).value;
    forall k | k in m
      ensures exists i :: LastKeptAt(es, rule, k, i)
    {
      if Keeps(rule, e.ext) && e.stem == k {
        assert LastKeptAt(es, rule, k, n);
      } else {
        var i :| LastKeptAt(init, rule, k, i);
        assert LastKeptAt(es, rule, k, i);
      }
    }
  }

  /** Every value of a scan is a safe template body that reads back as the
      text of the last kept file with that stem. */
  lemma CollectValuesDecode(es: seq<DirEntry>, rule: Rule)
    requires Readable(es, rule)
    ensures forall k :: k in Collect(es, rule).value ==>
      && Safe(Collect(es, rule).value[k])
      && exists i :: LastKeptAt(es, rule, k, i) && Unescape(Collect(es, rule).value[k]) == Some(es[i].content.value)
  {
    CollectKeySource(es, rule);
    CollectLastWriteWins(es, rule);
    var m := Collect(es, rule).value;
    forall k | k in m
      ensures Safe(m[k])
      ensures exists i :: LastKeptAt(es, rule, k, i) && Unescape(m[k]) == Some(es[i].content.value)
    {
      var i :| LastKeptAt(es, rule, k, i);
      EscapeSpec(es[i].content.value);
    }
  }

  /** Once a prefix of the listing has aborted, the whole scan aborts the
      same way: the run stops at the first failure. */
  lemma {:induction false} CollectAbortSticks(es: seq<DirEntry>, rule: Rule, n: nat)
    requires n <= |es|
    requires Collect(es[..n], rule).Abort?
    ensures Collect(es, rule) == Collect(es[..n], rule)
    decreases |es| - n
  {
    if n < |es| {
      var init := es[..|es| - 1];
      assert init[..n] == es[..n];
      CollectAbortSticks(init, rule, n);
    } else {
      assert es[..n] == es;
    }
  }

  /** One more entry of the listing: the fold over the first `i + 1`
      entries after a successful fold over the first `i`. */
  lemma CollectSnoc(es: seq<DirEntry>, rule: Rule, i: nat)
    requires i < |es| && Collect(es[..i], rule).Ok?
    ensures Collect(es[..i + 1], rule) ==
      if !Keeps(rule, es[i].ext) then Collect(es[..i], rule)
      else if es[i].content.None? then Abort(FileUnreadable(DirectoryOf(rule), es[i].stem, es[i].ext.value))
      else Ok(Collect(es[..i], rule).value[es[i].stem := Escape(es[i].content.value)])
  {
    var p := es[..i + 1];
    assert p[..|p| - 1] == es[..i];
    assert p[|p| - 1] == es[i];
  }

  /** The `for` loop over `read_dir`: skip entries the rule rejects, read and
      escape the others, insert under the stem. */
  method Scan(listing: Listing, rule: Rule) returns (r: Result<map<string, string>>)
    ensures listing.Unlistable? ==> r == Abort(DirectoryUnreadable(DirectoryOf(rule)))
    ensures listing.Listed? ==> r == Collect(listing.entries, rule)
  {
    if listing.Unlistable? {
      return Abort(DirectoryUnreadable(DirectoryOf(rule)));
    }
    var es := listing.entries;
    var m: map<string, string> := map[];
    var i := 0;
    while i < |es|
      invariant 0 <= i <= |es|
      invariant Collect(es[..i], rule) == Ok(m)
    {
      var e := es[i];
      CollectSnoc(es, rule, i);
      if Keeps(rule, e.ext) {
        if e.content.None? {
          r := Abort(FileUnreadable(DirectoryOf(rule), e.stem, e.ext.value));
          CollectAbortSticks(es, rule, i + 1);
          return;
        }
        m := m[e.stem := Escape(e.content.value)];
      }
      i := i + 1;
    }
    assert es[..i] == es;
    r := Ok(m);
  }

  // ---------------------------------------------------------------------
  // The two scans.

  /** The query scan keeps exactly the `scm` files; files without an
      extension are skipped. */
  lemma {:induction false} QueryScanKeys(es: seq<DirEntry>)
    requires Readable(es, QueryRule)
    ensures forall k :: k in Collect(es, QueryRule).value <==>
      exists i :: 0 <= i < |es| && es[i].ext == Some("scm") && es[i].stem == k
  {
    CollectKeys(es, QueryRule);
  }

  /** The input scan keeps exactly the files whose extension is known and
      is not `mli`; files without an extension are skipped. */
  lemma {:induction false} InputScanKeys(known: set<string>, es: seq<DirEntry>)
    requires Readable(es, InputRule(known))
    ensures forall k :: k in Collect(es, InputRule(known)).value <==>
      exists i :: 0 <= i < |es| && es[i].ext.Some? && es[i].ext.value in known
        && es[i].ext.value != "mli" && es[i].stem == k
  {
    CollectKeys(es, InputRule(known));
  }

  /** An OCaml sample comes as `ocaml.ml` and `ocaml.mli`; whatever the
      enumeration order, only the `ml` text is kept under `ocaml`. */
  lemma InterfaceVariantSkipped(known: set<string>, ml: string, mli: string)
    requires "ml" in known
    ensures Collect([DirEntry("ocaml", Some("ml"), Some(ml)), DirEntry("ocaml", Some("mli"), Some(mli))], InputRule(known))
      == Ok(map["ocaml" := Escape(ml)])
    ensures Collect([DirEntry("ocaml", Some("mli"), Some(mli)), DirEntry("ocaml", Some("ml"), Some(ml))], InputRule(known))
      == Ok(map["ocaml" := Escape(ml)])
  {
    var a := [DirEntry("ocaml", Some("ml"), Some(ml)), DirEntry("ocaml", Some("mli"), Some(mli))];
    var b := [DirEntry("ocaml", Some("mli"), Some(mli)), DirEntry("ocaml", Some("ml"), Some(ml))];
    assert a[..1][..0] == [] && b[..1][..0] == [];
    assert Collect(a[..1], InputRule(known)) == Ok(map["ocaml" := Escape(ml)]);
    assert Collect(b[..1], InputRule(known)) == Ok(map[]);
  }

  // ---------------------------------------------------------------------
  // Enumeration order.

  /** No two entries of a listing have the same file name. */
  predicate DistinctNames(es: seq<DirEntry>) {
    forall i, j :: 0 <= i < j < |es| ==> es[i].stem != es[j].stem || es[i].ext != es[j].ext
  }

  /** Kept entries that share a stem are one and the same entry. */
  predicate StemsResolve(es: seq<DirEntry>, rule: Rule) {
    forall i, j ::
      (0 <= i < |es| && 0 <= j < |es| && Keeps(rule, es[i].ext) && Keeps(rule, es[j].ext)
       && es[i].stem == es[j].stem) ==> es[i] == es[j]
  }

  lemma ReadableByEntries(es1: seq<DirEntry>, es2: seq<DirEntry>, rule: Rule)
    requires forall e :: e in es1 <==> e in es2
    ensures Readable(es1, rule) <==> Readable(es2, rule)
  {
    if Readable(es1, rule) {
      forall j | 0 <= j < |es2| && Keeps(rule, es2[j].ext)
        ensures es2[j].content.Some?
      {
        assert es2[j] in es1;
      }
    }
    if Readable(es2, rule) {
      forall j | 0 <= j < |es1| && Keeps(rule, es1[j].ext)
        ensures es1[j].content.Some?
      {
        assert es1[j] in es2;
      }
    }
  }

  lemma SameKeys(es1: seq<DirEntry>, es2: seq<DirEntry>, rule: Rule)
    requires forall e :: e in es1 <==> e in es2
    requires Readable(es1, rule) && Readable(es2, rule)
    ensures forall k :: k in Collect(es1, rule).value <==> k in Collect(es2, rule).value
  {
    CollectKeys(es1, rule);
    CollectKeys(es2, rule);
    forall k
      ensures k in Collect(es1, rule).value <==> k in Collect(es2, rule).value
    {
      if k in Collect(es1, rule).value {
        var i :| 0 <= i < |es1| && Keeps(rule, es1[i].ext) && es1[i].stem == k;
        assert es1[i] in es2;
        var j :| 0 <= j < |es2| && es2[j] == es1[i];
      }
      if k in Collect(es2, rule).value {
        var i :| 0 <= i < |es2| && Keeps(rule, es2[i].ext) && es2[i].stem == k;
        assert es2[i] in es1;
        var j :| 0 <= j < |es1| && es1[j] == es2[i];
      }
    }
  }

  lemma SameValues(es1: seq<DirEntry>, es2: seq<DirEntry>, rule: Rule)
    requires forall e :: e in es1 <==> e in es2
    requires StemsResolve(es1, rule)
    requires Readable(es1, rule) && Readable(es2, rule)
    ensures forall k :: k in Collect(es1, rule).value && k in Collect(es2, rule).value ==>
      Collect(es1, rule).value[k] == Collect(es2, rule).value[k]
  {
    CollectKeySource(es1, rule);
    CollectKeySource(es2, rule);
    CollectLastWriteWins(es1, rule);
    CollectLastWriteWins(es2, rule);
    var m1 := Collect(es1, rule).value;
    var m2 := Collect(es2, rule).value;
    forall k | k in m1 && k in m2
      ensures m1[k] == m2[k]
    {
      var i1 :| LastKeptAt(es1, rule, k, i1);
      var i2 :| LastKeptAt(es2, rule, k, i2);
      assert es2[i2] in es1;
      var j :| 0 <= j < |es1| && es1[j] == es2[i2];
      assert es1[j] == es1[i1];
    }
  }

  /** When the kept entries of a listing resolve every stem to one entry,
      two listings of the same entries agree on success, and then give the
      same map. Which failure an aborted scan reports still depends on the
      order (see AbortReportDependsOnOrder). */
  lemma CollectOrderIndependent(es1: seq<DirEntry>, es2: seq<DirEntry>, rule: Rule)
    requires forall e :: e in es1 <==> e in es2
    requires StemsResolve(es1, rule)
    ensures Collect(es1, rule).Ok? <==> Collect(es2, rule).Ok?
    ensures Collect(es1, rule).Ok? ==> Collect(es1, rule) == Collect(es2, rule)
  {
    ReadableByEntries(es1, es2, rule);
    if Readable(es1, rule) {
      SameKeys(es1, es2, rule);
      SameValues(es1, es2, rule);
      var m1 := Collect(es1, rule).value;
      var m2 := Collect(es2, rule).value;
      assert m1 == m2;
    }
  }

  /** Which failure an aborted scan reports does depend on the enumeration
      order: with two unreadable query files the run stops at whichever
      comes first. */
  lemma AbortReportDependsOnOrder(a: string, b: string)
    requires a != b
    ensures Collect([DirEntry(a, Some("scm"), None), DirEntry(b, Some("scm"), None)], QueryRule)
      == Abort(FileUnreadable(QueryDirectory, a, "scm"))
    ensures Collect([DirEntry(b, Some("scm"), None), DirEntry(a, Some("scm"), None)], QueryRule)
      == Abort(FileUnreadable(QueryDirectory, b, "scm"))
  {
    var ab := [DirEntry(a, Some("scm"), None), DirEntry(b, Some("scm"), None)];
    var ba := [DirEntry(b, Some("scm"), None), DirEntry(a, Some("scm"), None)];
    assert ab[..1][..0] == [] && ba[..1][..0] == [];
    assert Collect(ab[..1], QueryRule) == Abort(FileUnreadable(QueryDirectory, a, "scm"));
    assert Collect(ba[..1], QueryRule) == Abort(FileUnreadable(QueryDirectory, b, "scm"));
  }

  /** The query scan keeps only `scm` files, and a directory holds one file
      of each name: one enumeration order succeeds exactly when another
      does, and then both give the same map. */
  lemma QueryScanOrderIndependent(es1: seq<DirEntry>, es2: seq<DirEntry>)
    requires forall e :: e in es1 <==> e in es2
    requires DistinctNames(es1)
    ensures Collect(es1, QueryRule).Ok? <==> Collect(es2, QueryRule).Ok?
    ensures Collect(es1, QueryRule).Ok? ==> Collect(es1, QueryRule) == Collect(es2, QueryRule)
  {
    forall i, j | 0 <= i < |es1| && 0 <= j < |es1| && Keeps(QueryRule, es1[i].ext) && Keeps(QueryRule, es1[j].ext)
      && es1[i].stem == es1[j].stem
      ensures es1[i] == es1[j]
    {
    }
    CollectOrderIndependent(es1, es2, QueryRule);
  }
}
