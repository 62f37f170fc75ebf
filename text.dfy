/**
 * String operations the parser and the code generator rely on: suffix tests
 * (QStringRef::endsWith), list joining (QStringList::join), decimal rendering of
 * an index (QString::arg(int)), whitespace simplification (QString::simplified,
 * over the ASCII whitespace set) and character / substring replacement
 * (QString::replace).
 */
module Text {

  /**
   * `s` ends with `suffix` (QStringRef::endsWith), compared character by character
   * from the end; every string ends with the empty string.
   */
  predicate EndsWith(s: string, suffix: string)
    decreases |suffix|
  {
    if suffix == [] then true
    else |s| > 0 && s[|s| - 1] == suffix[|suffix| - 1] && EndsWith(s[..|s| - 1], suffix[..|suffix| - 1])
  }

  /** Ending with `suffix` is having `suffix` as the last |suffix| characters. */
  lemma {:induction false} EndsWithSlice(s: string, suffix: string)
    ensures EndsWith(s, suffix) <==> |suffix| <= |s| && s[|s| - |suffix|..] == suffix
    decreases |suffix|
  {
    if suffix != [] && |s| > 0 {
      EndsWithSlice(s[..|s| - 1], suffix[..|suffix| - 1]);
      if |suffix| <= |s| {
        var t := s[|s| - |suffix|..];
        assert t == s[..|s| - 1][|s| - 1 - (|suffix| - 1)..] + [s[|s| - 1]];
        assert suffix == suffix[..|suffix| - 1] + [suffix[|suffix| - 1]];
      }
    }
  }

  lemma EndsWithLast(s: string, suffix: string)
    requires EndsWith(s, suffix) && |suffix| > 0
    ensures |s| > 0 && s[|s| - 1] == suffix[|suffix| - 1]
  {
  }

  /** Two suffixes whose last characters differ cannot both end `s`. */
  lemma EndsWithExclusive(s: string, a: string, b: string)
    requires |a| > 0 && |b| > 0 && a[|a| - 1] != b[|b| - 1]
    ensures !(EndsWith(s, a) && EndsWith(s, b))
  {
  }

  /** The pieces separated by `sep`, as QStringList::join does. */
  function Join(xs: seq<string>, sep: string): string
    decreases |xs|
  {
    if |xs| == 0 then ""
    else if |xs| == 1 then xs[0]
    else Join(xs[..|xs| - 1], sep) + sep + xs[|xs| - 1]
  }

  /** Appending one piece appends the separator and the piece. */
  lemma JoinSnoc(xs: seq<string>, x: string, sep: string)
    requires |xs| > 0
    ensures Join(xs + [x], sep) == Join(xs, sep) + sep + x
  {
    assert (xs + [x])[..|xs + [x]| - 1] == xs;
  }

  /** The joined text is as long as the pieces plus one separator between each two. */
  lemma {:induction false} JoinLength(xs: seq<string>, sep: string)
    ensures |Join(xs, sep)| == TotalLength(xs) + (if |xs| == 0 then 0 else (|xs| - 1) * |sep|)
    decreases |xs|
  {
    if |xs| > 1 {
      JoinLength(xs[..|xs| - 1], sep);
      TotalLengthSnoc(xs[..|xs| - 1], xs[|xs| - 1]);
      assert xs[..|xs| - 1] + [xs[|xs| - 1]] == xs;
    } else if |xs| == 1 {
      assert TotalLength(xs) == TotalLength(xs[1..]) + |xs[0]|;
    }
  }

  function TotalLength(xs: seq<string>): nat
    decreases |xs|
  {
    if xs == [] then 0 else |xs[0]| + TotalLength(xs[1..])
  }

  lemma {:induction false} TotalLengthSnoc(xs: seq<string>, x: string)
    ensures TotalLength(xs + [x]) == TotalLength(xs) + |x|
    decreases |xs|
  {
    if xs != [] {
      assert (xs + [x])[1..] == xs[1..] + [x];
      TotalLengthSnoc(xs[1..], x);
    }
  }

  /** The non-empty entries of `xs`, in order. */
  function NonEmpty(xs: seq<string>): (r: seq<string>)
    ensures |r| <= |xs|
    ensures forall k :: 0 <= k < |r| ==> r[k] != ""
    decreases |xs|
  {
    if xs == [] then []
    else if xs[0] == "" then NonEmpty(xs[1..])
    else [xs[0]] + NonEmpty(xs[1..])
  }

  /** Joining only non-empty entries gives the empty text exactly when every entry is empty. */
  lemma {:induction false} JoinNonEmptyIsEmpty(xs: seq<string>, sep: string)
    ensures (Join(NonEmpty(xs), sep) == "") <==> (forall k :: 0 <= k < |xs| ==> xs[k] == "")
    decreases |xs|
  {
    var ne := NonEmpty(xs);
    JoinLength(ne, sep);
    if xs != [] {
      JoinNonEmptyIsEmpty(xs[1..], sep);
      if xs[0] != "" {
        assert ne[0] == xs[0];
        TotalLengthPositive(ne);
      } else {
        assert forall k :: 1 <= k < |xs| ==> xs[k] == xs[1..][k - 1];
      }
    }
    if |ne| > 0 {
      TotalLengthPositive(ne);
    }
  }

  lemma TotalLengthPositive(xs: seq<string>)
    requires |xs| > 0 && xs[0] != ""
    ensures TotalLength(xs) > 0
  {
  }

  /** Joining a single non-empty entry among empty ones yields that entry. */
  lemma {:induction false} JoinNonEmptySingle(xs: seq<string>, k: nat, sep: string)
    requires k < |xs| && xs[k] != ""
    requires forall j :: 0 <= j < |xs| && j != k ==> xs[j] == ""
    ensures NonEmpty(xs) == [xs[k]]
    decreases |xs|
  {
    if k == 0 {
      NonEmptyAllEmpty(xs[1..]);
    } else {
      JoinNonEmptySingle(xs[1..], k - 1, sep);
    }
  }

  lemma {:induction false} NonEmptyAllEmpty(xs: seq<string>)
    requires forall j :: 0 <= j < |xs| ==> xs[j] == ""
    ensures NonEmpty(xs) == []
    decreases |xs|
  {
    if xs != [] {
      NonEmptyAllEmpty(xs[1..]);
    }
  }

  // ---------------------------------------------------------------------------
  // Decimal rendering of an index, as QString::arg(int) does in base 10.

  function DigitChar(d: nat): char
    requires d < 10
  {
    "0123456789"[d]
  }

  function NatToString(n: nat): (r: string)
    ensures |r| > 0
    decreases n
  {
    if n < 10 then [DigitChar(n)] else NatToString(n / 10) + [DigitChar(n % 10)]
  }

  function DigitValue(c: char): nat
  {
    if '0' <= c <= '9' then (c as int - '0' as int) as nat else 0
  }

  /** Reads a decimal numeral back. */
  function ParseNat(s: string): nat
    decreases |s|
  {
    if s == [] then 0 else ParseNat(s[..|s| - 1]) * 10 + DigitValue(s[|s| - 1])
  }

  /** Rendering an index and reading it back gives the index: distinct indices render differently. */
  lemma {:induction false} NatToStringRoundTrip(n: nat)
    ensures ParseNat(NatToString(n)) == n
    decreases n
  {
    var r := NatToString(n);
    if n < 10 {
      assert r[..|r| - 1] == [];
    } else {
      NatToStringRoundTrip(n / 10);
      assert r[..|r| - 1] == NatToString(n / 10);
    }
  }

  lemma NatToStringInjective(m: nat, n: nat)
    ensures NatToString(m) == NatToString(n) ==> m == n
  {
    NatToStringRoundTrip(m);
    NatToStringRoundTrip(n);
  }

  // ---------------------------------------------------------------------------
  // QString::simplified over ASCII whitespace.

  predicate IsSpace(c: char) {
    c == ' ' || c == '\t' || c == '\n' || c == '\r' || c == '\U{000B}' || c == '\U{000C}'
  }

  /** Whitespace only as single blanks between two other characters. */
  ghost predicate IsSimplified(t: string) {
    forall k :: 0 <= k < |t| && IsSpace(t[k]) ==> t[k] == ' ' && 0 < k < |t| - 1 && !IsSpace(t[k + 1])
  }

  /** The characters of `s` that are not whitespace, in order. */
  function NonSpace(s: string): string
    decreases |s|
  {
    if s == [] then [] else NonSpace(s[..|s| - 1]) + (if IsSpace(s[|s| - 1]) then [] else [s[|s| - 1]])
  }

  function SimplifyFrom(s: string, acc: string, pending: bool): string
    decreases |s|
  {
    if s == [] then acc
    else if IsSpace(s[0]) then SimplifyFrom(s[1..], acc, |acc| > 0)
    else SimplifyFrom(s[1..], acc + (if pending then " " else "") + [s[0]], false)
  }

  /** Leading and trailing whitespace removed, each inner whitespace run replaced by one blank. */
  function Simplified(s: string): string {
    SimplifyFrom(s, "", false)
  }

  lemma NonSpaceAppend(a: string, b: string)
    ensures NonSpace(a + b) == NonSpace(a) + NonSpace(b)
    decreases |b|
  {
    if b != [] {
      assert (a + b)[..|a + b| - 1] == a + b[..|b| - 1];
      NonSpaceAppend(a, b[..|b| - 1]);
    } else {
      assert a + b == a;
    }
  }

  lemma {:induction false} SimplifyFromCorrect(s: string, acc: string, pending: bool)
    requires IsSimplified(acc) && (pending ==> |acc| > 0)
    ensures IsSimplified(SimplifyFrom(s, acc, pending))
    ensures NonSpace(SimplifyFrom(s, acc, pending)) == NonSpace(acc) + NonSpace(s)
    decreases |s|
  {
    if s != [] {
      NonSpaceAppend([s[0]], s[1..]);
      assert [s[0]] + s[1..] == s;
      if IsSpace(s[0]) {
        assert NonSpace([s[0]]) == NonSpace([]) + [];
        SimplifyFromCorrect(s[1..], acc, |acc| > 0);
      } else {
        var acc' := acc + (if pending then " " else "") + [s[0]];
        assert SimplifyFrom(s, acc, pending) == SimplifyFrom(s[1..], acc', false);
        assert NonSpace([s[0]]) == NonSpace([]) + [s[0]];
        AppendNonSpace(acc, pending, s[0]);
        AppendKeepsSimplified(acc, pending, s[0]);
        SimplifyFromCorrect(s[1..], acc', false);
      }
    }
  }

  /** Appending a non-space character, after one blank or not, adds just that character to the non-space ones. */
  lemma AppendNonSpace(acc: string, pending: bool, c: char)
    requires !IsSpace(c)
    ensures NonSpace(acc + (if pending then " " else "") + [c]) == NonSpace(acc) + [c]
  {
    var sep: string := if pending then " " else "";
    assert NonSpace([c]) == NonSpace([]) + [c];
    assert NonSpace(sep) == [] by {
      assert NonSpace(" ") == NonSpace([]) + [];
    }
    NonSpaceAppend(sep, [c]);
    assert acc + sep + [c] == acc + (sep + [c]);
    NonSpaceAppend(acc, sep + [c]);
  }

  /** Appending a non-space character, after one blank if a run of whitespace is pending, keeps the text simplified. */
  lemma AppendKeepsSimplified(acc: string, pending: bool, c: char)
    requires IsSimplified(acc) && (pending ==> |acc| > 0) && !IsSpace(c)
    ensures IsSimplified(acc + (if pending then " " else "") + [c])
  {
    var acc' := acc + (if pending then " " else "") + [c];
    forall k | 0 <= k < |acc'| && IsSpace(acc'[k])
      ensures acc'[k] == ' ' && 0 < k < |acc'| - 1 && !IsSpace(acc'[k + 1])
    {
      if k < |acc| {
        assert acc'[k] == acc[k];
        if k == |acc| - 1 {
          assert false;
        }
        assert acc'[k + 1] == acc[k + 1];
      }
    }
  }

  /** The simplified text keeps every non-whitespace character in order and keeps whitespace only as single inner blanks. */
  lemma SimplifiedCorrect(s: string)
    ensures IsSimplified(Simplified(s))
    ensures NonSpace(Simplified(s)) == NonSpace(s)
  {
    SimplifyFromCorrect(s, "", false);
  }

  /** The length of the run of non-whitespace characters that starts `s`. */
  function RunLength(s: string): (n: nat)
    ensures n <= |s|
    ensures forall k :: 0 <= k < n ==> !IsSpace(s[k])
    ensures n < |s| ==> IsSpace(s[n])
    decreases |s|
  {
    if s == [] || IsSpace(s[0]) then 0 else 1 + RunLength(s[1..])
  }

  /** The words of `s`: its maximal runs of non-whitespace characters, in order. */
  function Words(s: string): seq<string>
    decreases |s|
  {
    if s == [] then []
    else if IsSpace(s[0]) then Words(s[1..])
    else [s[..RunLength(s)]] + Words(s[RunLength(s)..])
  }

  /** Joining a list by its first piece: the piece, then the separator and the rest if there is a rest. */
  lemma {:induction false} JoinCons(x: string, xs: seq<string>, sep: string)
    ensures Join([x] + xs, sep) == x + (if xs == [] then "" else sep + Join(xs, sep))
    decreases |xs|
  {
    if |xs| == 1 {
      assert ([x] + xs)[..1] == [x];
    } else if |xs| > 1 {
      var ys := xs[..|xs| - 1];
      JoinCons(x, ys, sep);
      assert ([x] + xs)[..|[x] + xs| - 1] == [x] + ys;
    }
  }

  /** A word is copied whole: the blank owed before it, then its characters. */
  lemma {:induction false} SimplifyCopiesWord(s: string, acc: string, pending: bool)
    requires s != [] && !IsSpace(s[0])
    ensures SimplifyFrom(s, acc, pending)
      == SimplifyFrom(s[RunLength(s)..], acc + (if pending then " " else "") + s[..RunLength(s)], false)
    decreases |s|
  {
    var acc1 := acc + (if pending then " " else "") + [s[0]];
    var t := s[1..];
    if t != [] && !IsSpace(t[0]) {
      SimplifyCopiesWord(t, acc1, false);
      var m := RunLength(t);
      assert SimplifyFrom(s, acc, pending) == SimplifyFrom(t, acc1, false);
      assert acc1 + (if false then " " else "") + t[..m] == acc1 + t[..m];
      assert RunLength(s) == 1 + m;
      assert t[m..] == s[RunLength(s)..];
      assert s[..RunLength(s)] == [s[0]] + t[..m];
      assert acc1 + t[..m] == acc + (if pending then " " else "") + s[..RunLength(s)];
    } else {
      assert s[..RunLength(s)] == [s[0]];
    }
  }

  /**
   * Outside a word, simplifying the rest of `s` appends its words, each two apart by
   * one blank, after one blank when something is already written.
   */
  lemma {:induction false} SimplifyFromWords(s: string, acc: string, pending: bool)
    requires pending ==> |acc| > 0
    requires s == [] || IsSpace(s[0]) || pending || acc == []
    ensures SimplifyFrom(s, acc, pending)
      == acc + (if Words(s) == [] then "" else (if |acc| > 0 then " " else "") + Join(Words(s), " "))
    decreases |s|
  {
    if s != [] {
      if IsSpace(s[0]) {
        assert Words(s) == Words(s[1..]);
        assert SimplifyFrom(s, acc, pending) == SimplifyFrom(s[1..], acc, |acc| > 0);
        SimplifyFromWords(s[1..], acc, |acc| > 0);
      } else {
        var n := RunLength(s);
        var w := s[..n];
        var acc' := acc + (if pending then " " else "") + w;
        assert Words(s) == [w] + Words(s[n..]);
        SimplifyCopiesWord(s, acc, pending);
        SimplifyFromWords(s[n..], acc', false);
        JoinCons(w, Words(s[n..]), " ");
      }
    }
  }

  /** QString::simplified is the words of the text joined by single blanks. */
  lemma SimplifiedIsWords(s: string)
    ensures Simplified(s) == Join(Words(s), " ")
  {
    SimplifyFromWords(s, "", false);
  }

  /** A run of non-whitespace ends where `s` has whitespace: adding text after that whitespace does not lengthen it. */
  lemma {:induction false} RunLengthAppend(a: string, b: string)
    requires RunLength(a) < |a| || (b != [] && IsSpace(b[0]))
    ensures RunLength(a + b) == RunLength(a)
    decreases |a|
  {
    if a != [] && !IsSpace(a[0]) {
      assert (a + b)[1..] == a[1..] + b;
      RunLengthAppend(a[1..], b);
    }
  }

  /** Whitespace between two texts separates their words: no word runs across it. */
  lemma {:induction false} WordsSplit(a: string, c: char, b: string)
    requires IsSpace(c)
    ensures Words(a + [c] + b) == Words(a) + Words(b)
    decreases |a|
  {
    var t := a + [c] + b;
    if a == [] {
      assert t[1..] == b;
    } else if IsSpace(a[0]) {
      assert t[0] == a[0] && t[1..] == a[1..] + [c] + b;
      assert Words(t) == Words(t[1..]);
      WordsSplit(a[1..], c, b);
    } else {
      var n := RunLength(a);
      assert t == a + ([c] + b);
      RunLengthAppend(a, [c] + b);
      assert t[0] == a[0] && RunLength(t) == n;
      assert Words(t) == [t[..n]] + Words(t[n..]);
      assert t[..n] == a[..n];
      assert t[n..] == a[n..] + [c] + b;
      WordsSplit(a[n..], c, b);
    }
  }

  // ---------------------------------------------------------------------------
  // QString::replace.

  /** Every occurrence of character `a` replaced by `b`. */
  function ReplaceChar(s: string, a: char, b: char): (r: string)
    ensures |r| == |s|
    ensures forall k :: 0 <= k < |s| ==> r[k] == (if s[k] == a then b else s[k])
  {
    seq(|s|, k requires 0 <= k < |s| => if s[k] == a then b else s[k])
  }

  /** Every occurrence of `pat` replaced by `rep`, scanning left to right without overlap. */
  function ReplaceAll(s: string, pat: string, rep: string): string
    requires |pat| > 0
    decreases |s|
  {
    if |s| < |pat| then s
    else if s[..|pat|] == pat then rep + ReplaceAll(s[|pat|..], pat, rep)
    else [s[0]] + ReplaceAll(s[1..], pat, rep)
  }

  /** Replacing a pattern by itself changes nothing. */
  lemma {:induction false} ReplaceAllIdentity(s: string, pat: string)
    requires |pat| > 0
    ensures ReplaceAll(s, pat, pat) == s
    decreases |s|
  {
    if |s| >= |pat| {
      if s[..|pat|] == pat {
        ReplaceAllIdentity(s[|pat|..], pat);
        assert s[..|pat|] + s[|pat|..] == s;
      } else {
        ReplaceAllIdentity(s[1..], pat);
        assert [s[0]] + s[1..] == s;
      }
    }
  }

  /** `pat` occurs in `s` at offset k. */
  predicate OccursAt(s: string, pat: string, k: nat) {
    k + |pat| <= |s| && s[k..k + |pat|] == pat
  }

  /** Text in which the pattern does not occur passes through replacement unchanged. */
  lemma {:induction false} ReplaceAllAbsent(s: string, pat: string, rep: string)
    requires |pat| > 0
    requires forall k: nat :: !OccursAt(s, pat, k)
    ensures ReplaceAll(s, pat, rep) == s
    decreases |s|
  {
    if |s| >= |pat| {
      assert !OccursAt(s, pat, 0);
      forall k: nat
        ensures !OccursAt(s[1..], pat, k)
      {
        OccursShift(s, pat, k);
      }
      ReplaceAllAbsent(s[1..], pat, rep);
      assert [s[0]] + s[1..] == s;
    }
  }

  /** An occurrence in the text after its first character is an occurrence one place later in the text. */
  lemma OccursShift(s: string, pat: string, k: nat)
    requires |s| > 0
    ensures OccursAt(s[1..], pat, k) <==> OccursAt(s, pat, k + 1)
  {
    if k + |pat| <= |s| - 1 {
      assert s[1..][k..k + |pat|] == s[k + 1..k + 1 + |pat|];
    }
  }
}
