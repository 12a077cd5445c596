/** The build script's `to_js_string` without its file read: it makes text
    safe to place between the backticks of a JavaScript template literal
    (ECMA-262, 2015 edition, section 11.8.6, "Template Literal Lexical
    Components"). */
module TemplateEscape {
  import opened Base

  /** True when `pat` occurs in `s` starting at index `i`. */
  predicate OccursAt(s: string, pat: string, i: nat) {
    i <= |s| && pat <= s[i..]
  }

  /** Rust's `str::replace`: the occurrences of `pat` are found from the
      left, never overlapping, and each one is replaced by `rep`. The three
      passes below only ever use non-empty patterns. */
  function Replace(s: string, pat: string, rep: string): string
    requires |pat| > 0
    decreases |s|
  {
    if |s| == 0 then []
    else if pat <= s then rep + Replace(s[|pat|..], pat, rep)
    else [s[0]] + Replace(s[1..], pat, rep)
  }

  /** Replacing a pattern that does not occur leaves the text as it is. */
  lemma {:induction false} ReplaceWithoutMatch(s: string, pat: string, rep: string)
    requires |pat| > 0
    requires forall i: nat :: !OccursAt(s, pat, i)
    ensures Replace(s, pat, rep) == s
    decreases |s|
  {
    if |s| > 0 {
      assert !OccursAt(s, pat, 0);
      forall i: nat
        ensures !OccursAt(s[1..], pat, i)
      {
        if i <= |s[1..]| {
          assert s[1..][i..] == s[i + 1..];
          assert !OccursAt(s, pat, i + 1);
        }
      }
      ReplaceWithoutMatch(s[1..], pat, rep);
      assert s == [s[0]] + s[1..];
    }
  }

  /** One step of `Replace` at the front of a non-empty text. */
  lemma ReplaceHead(s: string, pat: string, rep: string)
    requires |pat| > 0 && |s| > 0
    ensures Replace(s, pat, rep) ==
      if pat <= s then rep + Replace(s[|pat|..], pat, rep) else [s[0]] + Replace(s[1..], pat, rep)
  {
  }

  /** First pass: double every backslash. It must run first. */
  function EscapeBackslashes(s: string): string {
    Replace(s, "\\", "\\\\")
  }

  /** Second pass: a backtick would end the template literal. */
  function EscapeBackticks(s: string): string {
    Replace(s, "`", "\\`")
  }

  /** Third pass: `${` would open a substitution. */
  function EscapeSubstitutions(s: string): string {
    Replace(s, "${", "\\${")
  }

  /** The same escaping read as one left-to-right scan of the input. */
  function EscapeOnePass(s: string): string
    decreases |s|
  {
    if |s| == 0 then []
    else if s[0] == '\\' then "\\\\" + EscapeOnePass(s[1..])
    else if s[0] == '`' then "\\`" + EscapeOnePass(s[1..])
    else if s[0] == '$' && |s| > 1 && s[1] == '{' then "\\${" + EscapeOnePass(s[2..])
    else [s[0]] + EscapeOnePass(s[1..])
  }

  /** Text with no backslash, no backtick and no `${`: nothing to escape. */
  predicate Plain(s: string) {
    forall i :: 0 <= i < |s| ==>
      && s[i] != '\\'
      && s[i] != '`'
      && (s[i] == '$' ==> i + 1 == |s| || s[i + 1] != '{')
  }

  /** A template body read left to right, each backslash opening a
      two-character escape pair: no bare backtick and no bare `${` occurs
      outside such a pair, and no backslash is left without its partner. */
  predicate Safe(t: string)
    decreases |t|
  {
    if |t| == 0 then true
    else if t[0] == '\\' then |t| > 1 && Safe(t[2..])
    else if t[0] == '`' then false
    else if t[0] == '$' && |t| > 1 && t[1] == '{' then false
    else Safe(t[1..])
  }

  function Prepend(c: char, o: Option<string>): Option<string> {
    match o
    case None => None
    case Some(x) => Some([c] + x)
  }

  /** The template value of a template body (section 11.8.6.1 of ECMA-262,
      2015 edition) for the three escapes the escaper emits: `\\`, `` \` ``
      and `\$` stand for the character after the backslash. `None` when the
      body holds a bare backtick, a bare `${`, a trailing backslash or any
      other escape. */
  function Unescape(t: string): Option<string>
    decreases |t|
  {
    if |t| == 0 then Some([])
    else if t[0] == '\\' then
      if |t| > 1 && (t[1] == '\\' || t[1] == '`' || t[1] == '$')
      then Prepend(t[1], Unescape(t[2..]))
      else None
    else if t[0] == '`' then None
    else if t[0] == '$' && |t| > 1 && t[1] == '{' then None
    else Prepend(t[0], Unescape(t[1..]))
  }

  /** The index of the backtick that closes a template body which starts
      at the front of `t`, reading each backslash together with the
      character after it. */
  function BodyEnd(t: string): Option<nat>
    decreases |t|
  {
    if |t| == 0 then None
    else if t[0] == '`' then Some(0)
    else if t[0] == '\\' then
      if |t| < 2 then None
      else match BodyEnd(t[2..])
        case None => None
        case Some(n) => Some(n + 2)
    else match BodyEnd(t[1..])
      case None => None
      case Some(n) => Some(n + 1)
  }

  /** `to_js_string`: the three passes in the source's order. */
  function Escape(s: string): string {
    EscapeSubstitutions(EscapeBackticks(EscapeBackslashes(s)))
  }

  /** What the escaper promises: it escapes each reserved sequence once in
      a single left-to-right reading; the result reads back as the input
      and holds no bare delimiter; and it changes exactly the text that has
      something to escape. */
  lemma EscapeSpec(s: string)
    ensures Escape(s) == EscapeOnePass(s)
    ensures Unescape(Escape(s)) == Some(s)
    ensures Safe(Escape(s))
    ensures Escape(s) == s <==> Plain(s)
  {
    ThreePassesAreOnePass(s);
    OnePassRoundTrip(s);
    OnePassSafe(s);
    OnePassIdentity(s);
  }

  // ---------------------------------------------------------------------
  // The three passes compute the single scan.

  lemma BackslashesHit(t: string)
    ensures EscapeBackslashes(['\\'] + t) == ['\\'] + (['\\'] + EscapeBackslashes(t))
  {
    var s := ['\\'] + t;
    assert "\\" <= s;
    assert s[1..] == t;
    ReplaceHead(s, "\\", "\\\\");
    var u := EscapeBackslashes(t);
    assert EscapeBackslashes(s) == "\\\\" + u;
    assert "\\\\" + u == ['\\'] + (['\\'] + u);
  }

  lemma BackslashesMiss(c: char, t: string)
    requires c != '\\'
    ensures EscapeBackslashes([c] + t) == [c] + EscapeBackslashes(t)
  {
    var s := [c] + t;
    assert s[0] == c && s[1..] == t;
    assert !("\\" <= s);
    ReplaceHead(s, "\\", "\\\\");
  }

  lemma BackticksHit(t: string)
    ensures EscapeBackticks(['`'] + t) == ['\\'] + (['`'] + EscapeBackticks(t))
  {
    var s := ['`'] + t;
    assert "`" <= s;
    assert s[1..] == t;
    ReplaceHead(s, "`", "\\`");
    var u := EscapeBackticks(t);
    assert EscapeBackticks(s) == "\\`" + u;
    assert "\\`" + u == ['\\'] + (['`'] + u);
  }

  lemma BackticksMiss(c: char, t: string)
    requires c != '`'
    ensures EscapeBackticks([c] + t) == [c] + EscapeBackticks(t)
  {
    var s := [c] + t;
    assert s[0] == c && s[1..] == t;
    assert !("`" <= s);
    ReplaceHead(s, "`", "\\`");
  }

  lemma SubstitutionsMiss(c: char, t: string)
    requires c != '$' || |t| == 0 || t[0] != '{'
    ensures EscapeSubstitutions([c] + t) == [c] + EscapeSubstitutions(t)
  {
    var s := [c] + t;
    assert s[0] == c && s[1..] == t;
    assert !("${" <= s) by {
      if |s| >= 2 {
        assert s[1] == t[0];
      }
    }
    ReplaceHead(s, "${", "\\${");
  }

  lemma SubstitutionsHit(t: string)
    ensures EscapeSubstitutions(['$'] + (['{'] + t)) == ['\\'] + (['$'] + (['{'] + EscapeSubstitutions(t)))
  {
    var s := ['$'] + (['{'] + t);
    assert s[0] == '$' && s[1] == '{' && s[2..] == t;
    assert "${" <= s;
    ReplaceHead(s, "${", "\\${");
    var u := EscapeSubstitutions(t);
    assert EscapeSubstitutions(s) == "\\${" + u;
    assert "\\${" + u == ['\\'] + (['$'] + (['{'] + u));
  }

  lemma OnePassBackslash(t: string)
    ensures EscapeOnePass(['\\'] + t) == ['\\'] + (['\\'] + EscapeOnePass(t))
  {
    assert (['\\'] + t)[1..] == t;
  }

  lemma OnePassBacktick(t: string)
    ensures EscapeOnePass(['`'] + t) == ['\\'] + (['`'] + EscapeOnePass(t))
  {
    assert (['`'] + t)[1..] == t;
  }

  lemma OnePassOther(c: char, t: string)
    requires c != '\\' && c != '`'
    requires c != '$' || |t| == 0 || t[0] != '{'
    ensures EscapeOnePass([c] + t) == [c] + EscapeOnePass(t)
  {
    assert ([c] + t)[1..] == t;
  }

  lemma OnePassOpen(t: string)
    ensures EscapeOnePass(['$'] + (['{'] + t)) == ['\\'] + (['$'] + (['{'] + EscapeOnePass(t)))
  {
    assert (['$'] + (['{'] + t))[2..] == t;
  }

  lemma ThreePassesBackslash(s1: string)
    requires Escape(s1) == EscapeOnePass(s1)
    ensures Escape(['\\'] + s1) == EscapeOnePass(['\\'] + s1)
  {
    var b := EscapeBackslashes(s1);
    var t := EscapeBackticks(b);
    BackslashesHit(s1);
    BackticksMiss('\\', ['\\'] + b);
    BackticksMiss('\\', b);
    SubstitutionsMiss('\\', ['\\'] + t);
    SubstitutionsMiss('\\', t);
    OnePassBackslash(s1);
  }

  lemma ThreePassesBacktick(s1: string)
    requires Escape(s1) == EscapeOnePass(s1)
    ensures Escape(['`'] + s1) == EscapeOnePass(['`'] + s1)
  {
    var b := EscapeBackslashes(s1);
    var t := EscapeBackticks(b);
    BackslashesMiss('`', s1);
    BackticksHit(b);
    SubstitutionsMiss('\\', ['`'] + t);
    SubstitutionsMiss('`', t);
    OnePassBacktick(s1);
  }

  lemma ThreePassesOpen(s2: string)
    requires Escape(s2) == EscapeOnePass(s2)
    ensures Escape(['$'] + (['{'] + s2)) == EscapeOnePass(['$'] + (['{'] + s2))
  {
    var b := EscapeBackslashes(s2);
    var t := EscapeBackticks(b);
    BackslashesMiss('$', ['{'] + s2);
    BackslashesMiss('{', s2);
    BackticksMiss('$', ['{'] + b);
    BackticksMiss('{', b);
    SubstitutionsHit(t);
    OnePassOpen(s2);
  }

  /** The first character the backslash and backtick passes produce. */
  lemma TwoPassesHead(s: string)
    requires |s| > 0
    ensures |EscapeBackticks(EscapeBackslashes(s))| > 0
    ensures EscapeBackticks(EscapeBackslashes(s))[0] ==
      (if s[0] == '\\' || s[0] == '`' then '\\' else s[0])
  {
    assert s == [s[0]] + s[1..];
    var b := EscapeBackslashes(s[1..]);
    if s[0] == '\\' {
      BackslashesHit(s[1..]);
      BackticksMiss('\\', ['\\'] + b);
    } else if s[0] == '`' {
      BackslashesMiss('`', s[1..]);
      BackticksHit(b);
    } else {
      BackslashesMiss(s[0], s[1..]);
      BackticksMiss(s[0], b);
    }
  }

  lemma ThreePassesOther(c: char, s1: string)
    requires c != '\\' && c != '`'
    requires c != '$' || |s1| == 0 || s1[0] != '{'
    requires Escape(s1) == EscapeOnePass(s1)
    ensures Escape([c] + s1) == EscapeOnePass([c] + s1)
  {
    var b := EscapeBackslashes(s1);
    var t := EscapeBackticks(b);
    BackslashesMiss(c, s1);
    BackticksMiss(c, b);
    if |s1| > 0 {
      TwoPassesHead(s1);
    }
    SubstitutionsMiss(c, t);
    OnePassOther(c, s1);
  }

  lemma {:induction false} ThreePassesAreOnePass(s: string)
    ensures Escape(s) == EscapeOnePass(s)
    decreases |s|
  {
    if |s| == 0 {
      return;
    }
    var c := s[0];
    if c == '$' && |s| > 1 && s[1] == '{' {
      ThreePassesAreOnePass(s[2..]);
      assert s == ['$'] + (['{'] + s[2..]);
      ThreePassesOpen(s[2..]);
    } else {
      ThreePassesAreOnePass(s[1..]);
      assert s == [c] + s[1..];
      if c == '\\' {
        ThreePassesBackslash(s[1..]);
      } else if c == '`' {
        ThreePassesBacktick(s[1..]);
      } else {
        ThreePassesOther(c, s[1..]);
      }
    }
  }

  // ---------------------------------------------------------------------
  // Properties of the single scan.

  /** The first character the single scan produces. */
  lemma OnePassHead(s: string)
    requires |s| > 0
    ensures |EscapeOnePass(s)| > 0
    ensures EscapeOnePass(s)[0] ==
      (if s[0] == '\\' || s[0] == '`' || (s[0] == '$' && |s| > 1 && s[1] == '{') then '\\' else s[0])
  {
  }

  lemma {:induction false} OnePassRoundTrip(s: string)
    ensures Unescape(EscapeOnePass(s)) == Some(s)
    decreases |s|
  {
    if |s| == 0 {
      return;
    }
    var t := EscapeOnePass(s);
    if s[0] == '\\' || s[0] == '`' {
      OnePassRoundTrip(s[1..]);
      assert t[2..] == EscapeOnePass(s[1..]);
      assert s == [s[0]] + s[1..];
    } else if s[0] == '$' && |s| > 1 && s[1] == '{' {
      OnePassRoundTrip(s[2..]);
      var rest := EscapeOnePass(s[2..]);
      assert t[2..] == ['{'] + rest;
      assert (['{'] + rest)[1..] == rest;
      assert Unescape(t[2..]) == Some(['{'] + s[2..]);
      assert Unescape(t) == Some(['$'] + (['{'] + s[2..]));
      assert s == ['$'] + (['{'] + s[2..]);
    } else {
      OnePassRoundTrip(s[1..]);
      if |s| > 1 {
        OnePassHead(s[1..]);
      }
      assert t[1..] == EscapeOnePass(s[1..]);
      assert s == [s[0]] + s[1..];
    }
  }

  lemma {:induction false} OnePassSafe(s: string)
    ensures Safe(EscapeOnePass(s))
    decreases |s|
  {
    if |s| == 0 {
      return;
    }
    var t := EscapeOnePass(s);
    if s[0] == '\\' || s[0] == '`' {
      OnePassSafe(s[1..]);
      assert t[2..] == EscapeOnePass(s[1..]);
    } else if s[0] == '$' && |s| > 1 && s[1] == '{' {
      OnePassSafe(s[2..]);
      var rest := EscapeOnePass(s[2..]);
      assert t[2..] == ['{'] + rest;
      assert t[2..][1..] == rest;
    } else {
      OnePassSafe(s[1..]);
      if |s| > 1 {
        OnePassHead(s[1..]);
      }
      assert t[1..] == EscapeOnePass(s[1..]);
    }
  }

  /** The scan never shortens its input, and keeps the length exactly when
      the input is plain, in which case it returns the input itself. */
  lemma {:induction false} OnePassGrowth(s: string)
    ensures |EscapeOnePass(s)| >= |s|
    ensures Plain(s) ==> EscapeOnePass(s) == s
    ensures |EscapeOnePass(s)| == |s| ==> Plain(s)
    decreases |s|
  {
    if |s| == 0 {
      return;
    }
    if s[0] == '\\' || s[0] == '`' {
      OnePassGrowth(s[1..]);
      assert !Plain(s) by {
        assert s[0] == '\\' || s[0] == '`';
      }
    } else if s[0] == '$' && |s| > 1 && s[1] == '{' {
      OnePassGrowth(s[2..]);
      assert !Plain(s) by {
        assert s[0] == '$' && s[1] == '{';
      }
    } else {
      var s1 := s[1..];
      OnePassGrowth(s1);
      if Plain(s) {
        assert Plain(s1) by {
          forall i | 0 <= i < |s1|
            ensures s1[i] != '\\' && s1[i] != '`' && (s1[i] == '$' ==> i + 1 == |s1| || s1[i + 1] != '{')
          {
            assert s1[i] == s[i + 1];
          }
        }
        assert s == [s[0]] + s1;
      }
      if |EscapeOnePass(s)| == |s| {
        assert Plain(s1);
        forall i | 0 <= i < |s|
          ensures s[i] != '\\' && s[i] != '`' && (s[i] == '$' ==> i + 1 == |s| || s[i + 1] != '{')
        {
          if i > 0 {
            assert s[i] == s1[i - 1];
          }
        }
      }
    }
  }

  lemma OnePassIdentity(s: string)
    ensures EscapeOnePass(s) == s <==> Plain(s)
  {
    OnePassGrowth(s);
  }

  // ---------------------------------------------------------------------
  // Escaped text inside the generated module.

  /** A safe body followed by the closing backtick ends exactly at that
      backtick, whatever follows it: escaped content cannot close the
      template literal early. */
  lemma {:induction false} SafeBodyEndsAtDelimiter(b: string, rest: string)
    requires Safe(b)
    ensures BodyEnd(b + "`" + rest) == Some(|b|)
    decreases |b|
  {
    var t := b + "`" + rest;
    if |b| == 0 {
      assert t[0] == '`';
    } else if b[0] == '\\' {
      SafeBodyEndsAtDelimiter(b[2..], rest);
      assert t[2..] == b[2..] + "`" + rest;
    } else {
      SafeBodyEndsAtDelimiter(b[1..], rest);
      assert t[1..] == b[1..] + "`" + rest;
    }
  }

  /** A backslash followed by a backtick becomes the escaped backslash
      followed by the escaped backtick, whatever comes after them. */
  lemma EscapeBackslashBacktick(t: string)
    ensures Escape(['\\', '`'] + t) == ['\\', '\\', '\\', '`'] + Escape(t)
  {
    EscapeSpec(t);
    EscapeSpec(['\\', '`'] + t);
    assert EscapeOnePass(['`'] + t) == ['\\'] + (['`'] + EscapeOnePass(t)) by {
      OnePassBacktick(t);
    }
    assert EscapeOnePass(['\\'] + (['`'] + t)) == ['\\'] + (['\\'] + EscapeOnePass(['`'] + t)) by {
      OnePassBackslash(['`'] + t);
    }
    assert ['\\', '`'] + t == ['\\'] + (['`'] + t);
  }

  /** Backslash doubling has to come first: escaping the backtick before
      doubling the backslashes leaves a bare backtick behind, so the result
      no longer reads back as the input. */
  lemma SwappedPassesLeaveBareBacktick(t: string)
    ensures !Safe(EscapeBackslashes(EscapeBackticks(['\\', '`'] + t)))
    ensures Unescape(EscapeBackslashes(EscapeBackticks(['\\', '`'] + t))) == None
  {
    var tt := EscapeBackticks(t);
    var ticked := ['\\'] + (['\\'] + (['`'] + tt));
    var rest := ['`'] + EscapeBackslashes(tt);
    var swapped := ['\\'] + (['\\'] + (['\\'] + (['\\'] + rest)));
    assert EscapeBackticks(['\\', '`'] + t) == ticked by {
      assert ['\\', '`'] + t == ['\\'] + (['`'] + t);
      BackticksMiss('\\', ['`'] + t);
      BackticksHit(t);
    }
    assert EscapeBackslashes(ticked) == swapped by {
      BackslashesHit(['\\'] + (['`'] + tt));
      BackslashesHit(['`'] + tt);
      BackslashesMiss('`', tt);
    }
    assert Unescape(rest) == None && !Safe(rest);
    assert Unescape(swapped[2..]) == None && !Safe(swapped[2..]) by {
      assert swapped[2..][2..] == rest;
    }
    assert Unescape(swapped) == None;
    assert !Safe(swapped);
  }
}
