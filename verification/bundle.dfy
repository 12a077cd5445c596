/** The sorted inner join of the query map and the sample-input map: the
    records the generated module exports, before they are rendered. */
module Bundle {
  import opened KeyOrder

  /** One exported language: its name, whether the formatter supports it,
      its escaped query text and its escaped sample input. */
  datatype BundleEntry = BundleEntry(name: string, supported: bool, query: string, input: string)

  /** The entries' names strictly ascend. */
  predicate AscendingNames(r: seq<BundleEntry>) {
    forall i, j :: 0 <= i < j < |r| ==> Below(r[i].name, r[j].name)
  }

  /** Some entry of `r` is named `k`. */
  predicate Named(r: seq<BundleEntry>, k: string) {
    exists i :: 0 <= i < |r| && r[i].name == k
  }

  /** What the exported records must be: one per name present in both maps
      and no other, each holding the support flag and both texts of its
      name, in strictly ascending name order. */
  ghost predicate IsBundle(queries: map<string, string>, inputs: map<string, string>,
                           isSupported: string -> bool, r: seq<BundleEntry>)
  {
    && AscendingNames(r)
    && (forall i :: 0 <= i < |r| ==>
          && r[i].name in queries
          && r[i].name in inputs
          && r[i] == BundleEntry(r[i].name, isSupported(r[i].name), queries[r[i].name], inputs[r[i].name]))
    && (forall k :: k in queries && k in inputs ==> Named(r, k))
  }

  /** The entries of `r` are exactly the records of the names in `names`
      that have a sample input, and ascend when `names` does. */
  ghost predicate JoinsNames(names: seq<string>, queries: map<string, string>, inputs: map<string, string>,
                             isSupported: string -> bool, r: seq<BundleEntry>)
    requires forall n :: n in names ==> n in queries
  {
    && (forall i :: 0 <= i < |r| ==>
          && r[i].name in names
          && r[i].name in inputs
          && r[i] == BundleEntry(r[i].name, isSupported(r[i].name), queries[r[i].name], inputs[r[i].name]))
    && (forall k :: k in names && k in inputs ==> Named(r, k))
    && (StrictlyAscending(names) ==> AscendingNames(r))
  }

  lemma TailAscending(names: seq<string>)
    requires |names| > 0
    ensures StrictlyAscending(names) ==> StrictlyAscending(names[1..])
  {
    if StrictlyAscending(names) {
      forall i, j | 0 <= i < j < |names[1..]|
        ensures Below(names[1..][i], names[1..][j])
      {
        assert names[1..][i] == names[i + 1] && names[1..][j] == names[j + 1];
      }
    }
  }

  /** A name without a sample input adds no record. */
  lemma JoinSkip(names: seq<string>, queries: map<string, string>, inputs: map<string, string>,
                 isSupported: string -> bool, rest: seq<BundleEntry>)
    requires |names| > 0 && names[0] !in inputs
    requires forall n :: n in names ==> n in queries
    requires JoinsNames(names[1..], queries, inputs, isSupported, rest)
    ensures JoinsNames(names, queries, inputs, isSupported, rest)
  {
    assert forall k :: k in names <==> k == names[0] || k in names[1..] by {
      assert names == [names[0]] + names[1..];
    }
    TailAscending(names);
  }

  /** A name with a sample input adds its record in front. */
  lemma JoinKeep(names: seq<string>, queries: map<string, string>, inputs: map<string, string>,
                 isSupported: string -> bool, rest: seq<BundleEntry>)
    requires |names| > 0 && names[0] in inputs
    requires forall n :: n in names ==> n in queries
    requires JoinsNames(names[1..], queries, inputs, isSupported, rest)
    ensures JoinsNames(names, queries, inputs, isSupported,
                       [BundleEntry(names[0], isSupported(names[0]), queries[names[0]], inputs[names[0]])] + rest)
  {
    var n := names[0];
    var r := [BundleEntry(n, isSupported(n), queries[n], inputs[n])] + rest;
    assert forall k :: k in names <==> k == n || k in names[1..] by {
      assert names == [n] + names[1..];
    }
    assert forall i :: 1 <= i < |r| ==> r[i] == rest[i - 1];
    forall k | k in names && k in inputs
      ensures Named(r, k)
    {
      if k == n {
        assert r[0].name == k;
      } else {
        var i :| 0 <= i < |rest| && rest[i].name == k;
        assert r[i + 1].name == k;
      }
    }
    TailAscending(names);
    if StrictlyAscending(names) {
      forall i, j | 0 <= i < j < |r|
        ensures Below(r[i].name, r[j].name)
      {
        if i == 0 {
          var m :| 0 <= m < |names[1..]| && names[1..][m] == r[j].name;
          assert names[m + 1] == r[j].name;
        }
      }
    }
  }

  /** The body of the `for` loop over the sorted query names: a name with a
      sample input yields a record, a name without one is skipped. */
  function JoinSorted(names: seq<string>, queries: map<string, string>, inputs: map<string, string>,
                      isSupported: string -> bool): (r: seq<BundleEntry>)
    requires forall n :: n in names ==> n in queries
    ensures forall i :: 0 <= i < |r| ==>
      && r[i].name in names
      && r[i].name in inputs
      && r[i] == BundleEntry(r[i].name, isSupported(r[i].name), queries[r[i].name], inputs[r[i].name])
    ensures forall k :: k in names && k in inputs ==> Named(r, k)
    ensures StrictlyAscending(names) ==> AscendingNames(r)
    decreases |names|
  {
    if |names| == 0 then []
    else
      var n := names[0];
      var rest := JoinSorted(names[1..], queries, inputs, isSupported);
      if n in inputs then
        JoinKeep(names, queries, inputs, isSupported, rest);
        [BundleEntry(n, isSupported(n), queries[n], inputs[n])] + rest
      else
        JoinSkip(names, queries, inputs, isSupported, rest);
        rest
  }

  /** The join and sort of the build script: take the query names in Rust
      `String` order and keep the ones that also have a sample input. */
  method Join(queries: map<string, string>, inputs: map<string, string>, isSupported: string -> bool)
    returns (r: seq<BundleEntry>)
    ensures IsBundle(queries, inputs, isSupported, r)
  {
    var names := SortKeys(queries.Keys);
    r := JoinSorted(names, queries, inputs, isSupported);
  }

  function Names(r: seq<BundleEntry>): (ns: seq<string>)
    ensures |ns| == |r|
    ensures forall i :: 0 <= i < |r| ==> ns[i] == r[i].name
  {
    seq(|r|, i requires 0 <= i < |r| => r[i].name)
  }

  /** The exported records are determined by the two maps and the support
      lookup alone: the enumeration order of the maps cannot show through,
      and identical inputs give identical output. */
  lemma BundleUnique(queries: map<string, string>, inputs: map<string, string>,
                     isSupported: string -> bool, r1: seq<BundleEntry>, r2: seq<BundleEntry>)
    requires IsBundle(queries, inputs, isSupported, r1)
    requires IsBundle(queries, inputs, isSupported, r2)
    ensures r1 == r2
  {
    var n1 := Names(r1);
    var n2 := Names(r2);
    forall k
      ensures k in n1 <==> k in n2
    {
      if k in n1 {
        var i :| 0 <= i < |n1| && n1[i] == k;
        assert Named(r2, k);
        var j :| 0 <= j < |r2| && r2[j].name == k;
        assert n2[j] == k;
      }
      if k in n2 {
        var i :| 0 <= i < |n2| && n2[i] == k;
        assert Named(r1, k);
        var j :| 0 <= j < |r1| && r1[j].name == k;
        assert n1[j] == k;
      }
    }
    AscendingUnique(n1, n2);
    forall i | 0 <= i < |r1|
      ensures r1[i] == r2[i]
    {
      assert n1[i] == n2[i];
    }
  }

  /** With queries for `a` and `b` and a sample input for `a` only, the
      single record is `a`'s. */
  lemma JoinDropsQueryOnlyKeys(isSupported: string -> bool, r: seq<BundleEntry>)
    requires IsBundle(map["a" := "qa", "b" := "qb"], map["a" := "ia"], isSupported, r)
    ensures r == [BundleEntry("a", isSupported("a"), "qa", "ia")]
  {
    var q := map["a" := "qa", "b" := "qb"];
    var inp := map["a" := "ia"];
    var expected := [BundleEntry("a", isSupported("a"), "qa", "ia")];
    assert Named(expected, "a") by {
      assert expected[0].name == "a";
    }
    BundleUnique(q, inp, isSupported, r, expected);
  }

  /** Names `z`, `a` and `m` present in both maps come out as `a`, `m`, `z`. */
  lemma JoinSortsKeys(isSupported: string -> bool, r: seq<BundleEntry>)
    requires IsBundle(map["z" := "qz", "a" := "qa", "m" := "qm"],
                      map["z" := "iz", "a" := "ia", "m" := "im"], isSupported, r)
    ensures |r| == 3 && r[0].name == "a" && r[1].name == "m" && r[2].name == "z"
  {
    var q := map["z" := "qz", "a" := "qa", "m" := "qm"];
    var inp := map["z" := "iz", "a" := "ia", "m" := "im"];
    var expected := [BundleEntry("a", isSupported("a"), "qa", "ia"),
                     BundleEntry("m", isSupported("m"), "qm", "im"),
                     BundleEntry("z", isSupported("z"), "qz", "iz")];
    assert Below("a", "m") && Below("a", "z") && Below("m", "z");
    assert Named(expected, "a") by {
      assert expected[0].name == "a";
    }
    assert Named(expected, "m") by {
      assert expected[1].name == "m";
    }
    assert Named(expected, "z") by {
      assert expected[2].name == "z";
    }
    BundleUnique(q, inp, isSupported, r, expected);
  }
}
