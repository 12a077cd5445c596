/** The text of the generated `languages_export.ts`: one record per bundle
    entry between a fixed header and a fixed footer. */
module Render {
  import opened Base
  import opened TemplateEscape
  import opened Bundle

  /** The three comment lines and the opening of the exported object. */
  const Header: string :=
    "// This file is automatically generated by Cargo.\n"
    + "// It is not intended for manual editing.\n"
    + "// To generate, please run `cargo build -p topiary-playground`\n"
    + "const languages: {[index: string]: any} = {\n"

  /** The close of the object and the default export. */
  const Footer: string := "};\n\nexport default languages;\n"

  /** What closes the query literal and opens the input literal. */
  const QueryClose: string := "`,\n    input: `"

  /** What closes the input literal and the record. */
  const InputClose: string := "`,\n  },\n"

  /** Rust's `Display` for `bool`. */
  function BoolText(b: bool): string {
    if b then "true" else "false"
  }

  /** A record up to the opening backtick of its query literal. */
  function RecordPrefix(e: BundleEntry): string {
    "  \"" + e.name + "\": {\n    supported: `" + BoolText(e.supported) + "`,\n    query: `"
  }

  /** One record of the `format!` template. */
  function Record(e: BundleEntry): string {
    RecordPrefix(e) + e.query + QueryClose + e.input + InputClose
  }

  /** The strings of `ss` one after the other. */
  function Concat(ss: seq<string>): string
    decreases |ss|
  {
    if |ss| == 0 then [] else ss[0] + Concat(ss[1..])
  }

  /** Each entry's record, in the entries' order. */
  function RecordList(es: seq<BundleEntry>): (rs: seq<string>)
    ensures |rs| == |es|
    ensures forall i :: 0 <= i < |es| ==> rs[i] == Record(es[i])
  {
    seq(|es|, i requires 0 <= i < |es| => Record(es[i]))
  }

  /** The buffer the loop fills: the records one after the other. */
  function Records(es: seq<BundleEntry>): string {
    Concat(RecordList(es))
  }

  /** The whole generated module. */
  function ModuleText(es: seq<BundleEntry>): string {
    Header + Records(es) + Footer
  }

  /** Where the record of entry `i` starts in the generated module. */
  function RecordOffset(es: seq<BundleEntry>, i: nat): nat
    requires i <= |es|
  {
    |Header| + |Concat(RecordList(es)[..i])|
  }

  /** Concatenating a joined list concatenates the parts one after the
      other. */
  lemma {:induction false} ConcatAppend(a: seq<string>, b: seq<string>)
    ensures Concat(a + b) == Concat(a) + Concat(b)
    decreases |a|
  {
    if |a| > 0 {
      ConcatAppend(a[1..], b);
      assert (a + b)[1..] == a[1..] + b;
    } else {
      assert a + b == b;
    }
  }

  /** In the concatenation of a list, element `i` sits right after the
      concatenation of the elements before it. */
  lemma ConcatAt(rs: seq<string>, i: nat)
    requires i < |rs|
    ensures |Concat(rs[..i])| + |rs[i]| == |Concat(rs[..i + 1])| <= |Concat(rs)|
    ensures Concat(rs)[|Concat(rs[..i])|..|Concat(rs[..i + 1])|] == rs[i]
  {
    var pre := rs[..i];
    var post := rs[i + 1..];
    var r := rs[i];
    assert rs == pre + [r] + post;
    assert rs[..i + 1] == pre + [r];
    ConcatAppend(pre + [r], post);
    ConcatAppend(pre, [r]);
    assert Concat([r]) == r by {
      assert [r][1..] == [];
    }
  }

  lemma SliceAfterPrefix(h: string, m: string, f: string, lo: nat, hi: nat)
    requires lo <= hi <= |m|
    ensures |h| + hi + |f| <= |h + m + f|
    ensures (h + m + f)[|h| + lo..|h| + hi] == m[lo..hi]
  {
  }

  /** The record of entry `i` spans from its offset to the next one. */
  lemma RecordOffsetStep(es: seq<BundleEntry>, i: nat)
    requires i < |es|
    ensures RecordOffset(es, i) + |Record(es[i])| == RecordOffset(es, i + 1)
    ensures RecordOffset(es, i + 1) <= |Header| + |Records(es)|
  {
    var rs := RecordList(es);
    ConcatAt(rs, i);
    assert rs[i] == Record(es[i]);
  }

  /** The module is the header, then each entry's record in the entries'
      order, then the footer: the record of entry `i` sits at its offset,
      and the record of the next entry starts where it ends. */
  lemma ModuleRecordAt(es: seq<BundleEntry>, i: nat)
    requires i < |es|
    ensures RecordOffset(es, i) + |Record(es[i])| == RecordOffset(es, i + 1)
    ensures RecordOffset(es, i + 1) + |Footer| <= |ModuleText(es)|
    ensures ModuleText(es)[RecordOffset(es, i)..RecordOffset(es, i + 1)] == Record(es[i])
  {
    var rs := RecordList(es);
    var lo := |Concat(rs[..i])|;
    var hi := |Concat(rs[..i + 1])|;
    ConcatAt(rs, i);
    assert rs[i] == Record(es[i]);
    SliceAfterPrefix(Header, Concat(rs), Footer, lo, hi);
    assert ModuleText(es) == Header + Concat(rs) + Footer;
    assert RecordOffset(es, i) == |Header| + lo && RecordOffset(es, i + 1) == |Header| + hi;
  }

  /** Records never shrink to nothing, so offsets strictly grow with the
      entry's position. */
  lemma {:induction false} RecordOffsetsAscend(es: seq<BundleEntry>, i: nat, j: nat)
    requires i < j <= |es|
    ensures RecordOffset(es, i) < RecordOffset(es, j)
    decreases j - i
  {
    RecordOffsetStep(es, i);
    if i + 1 < j {
      RecordOffsetsAscend(es, i + 1, j);
    }
  }

  /** A safe body placed after `p` and closed by a backtick: the literal
      that opens after `p` ends at that backtick. */
  lemma DelimitedAfter(p: string, body: string, rest: string)
    requires Safe(body)
    ensures (p + (body + "`" + rest))[|p|..] == body + "`" + rest
    ensures BodyEnd((p + (body + "`" + rest))[|p|..]) == Some(|body|)
  {
    var t := body + "`" + rest;
    assert (p + t)[|p|..] == t;
    SafeBodyEndsAtDelimiter(body, rest);
  }

  /** What the literal that opens after `p` holds up to its end. */
  lemma BodyAfter(p: string, body: string, rest: string)
    ensures (p + (body + "`" + rest))[|p|..][..|body|] == body
  {
    var t := body + "`" + rest;
    assert (p + t)[|p|..] == t;
    assert t[..|body|] == body;
  }

  /** Regrouping a record's pieces around the backtick that opens `q`. */
  lemma Regroup(p: string, a: string, q: string, b: string, c: string)
    requires |q| > 0
    ensures p + a + q + b + c == p + (a + [q[0]] + (q[1..] + b + c))
  {
    assert q == [q[0]] + q[1..];
  }

  /** Regrouping the tail of a record around the backtick that opens `c`. */
  lemma RegroupTail(p: string, b: string, c: string)
    requires |c| > 0
    ensures p + b + c == p + (b + [c[0]] + c[1..])
  {
    assert c == [c[0]] + c[1..];
  }

  lemma QueryLiteralDelimited(e: BundleEntry)
    requires Safe(e.query)
    ensures BodyEnd(Record(e)[|RecordPrefix(e)|..]) == Some(|e.query|)
    ensures Record(e)[|RecordPrefix(e)|..][..|e.query|] == e.query
  {
    var p := RecordPrefix(e);
    var rest := QueryClose[1..] + e.input + InputClose;
    Regroup(p, e.query, QueryClose, e.input, InputClose);
    assert [QueryClose[0]] == "`";
    DelimitedAfter(p, e.query, rest);
    BodyAfter(p, e.query, rest);
  }

  lemma InputLiteralDelimited(e: BundleEntry)
    requires Safe(e.input)
    ensures BodyEnd(Record(e)[|RecordPrefix(e) + e.query + QueryClose|..]) == Some(|e.input|)
    ensures Record(e)[|RecordPrefix(e) + e.query + QueryClose|..][..|e.input|] == e.input
  {
    var p := RecordPrefix(e) + e.query + QueryClose;
    var rest := InputClose[1..];
    assert Record(e) == p + e.input + InputClose;
    RegroupTail(p, e.input, InputClose);
    assert [InputClose[0]] == "`";
    DelimitedAfter(p, e.input, rest);
    BodyAfter(p, e.input, rest);
  }

  /** The query literal of a record ends exactly where the query text ends
      when that text is safe, and the input literal likewise: neither can
      swallow or cut short the rest of the module. */
  lemma RecordLiteralsDelimited(e: BundleEntry)
    requires Safe(e.query) && Safe(e.input)
    ensures Record(e)[..|RecordPrefix(e)|] == RecordPrefix(e)
    ensures BodyEnd(Record(e)[|RecordPrefix(e)|..]) == Some(|e.query|)
    ensures Record(e)[|RecordPrefix(e)|..][..|e.query|] == e.query
    ensures BodyEnd(Record(e)[|RecordPrefix(e) + e.query + QueryClose|..]) == Some(|e.input|)
    ensures Record(e)[|RecordPrefix(e) + e.query + QueryClose|..][..|e.input|] == e.input
  {
    QueryLiteralDelimited(e);
    InputLiteralDelimited(e);
  }
}
