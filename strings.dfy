/** Optional values, used wherever the source returns None. */
module Opt {
  datatype Option<T> = None | Some(value: T)
}

/**
 * The pieces of Python's `str` behaviour that the mail client relies on:
 * whitespace (str.isspace() / the regex class \s), strip(), split(),
 * split(sep), join(), `in`, startswith/endswith, ASCII lower()/upper(),
 * str(int) and int(str).
 */
module Strings {
  import opened Opt

  /** The characters Python's str.isspace() and the regex class \s accept. */
  predicate IsSpace(c: char) {
    ('\t' <= c <= '\r') || ('\U{1C}' <= c <= ' ') || c == '\U{85}' || c == '\U{A0}'
    || c == '\U{1680}' || ('\U{2000}' <= c <= '\U{200A}') || c == '\U{2028}' || c == '\U{2029}'
    || c == '\U{202F}' || c == '\U{205F}' || c == '\U{3000}'
  }

  predicate NoSpace(s: string) {
    forall i :: 0 <= i < |s| ==> !IsSpace(s[i])
  }

  /** Number of whitespace characters at the front of s. */
  function LeadingSpaces(s: string): (k: nat)
    ensures k <= |s|
    ensures k < |s| ==> !IsSpace(s[k])
  {
    if |s| > 0 && IsSpace(s[0]) then 1 + LeadingSpaces(s[1..]) else 0
  }

  /** Index where the run of whitespace at the end of s starts. */
  function TrailingStart(s: string): (k: nat)
    ensures k <= |s|
    ensures k > 0 ==> !IsSpace(s[k - 1])
  {
    if |s| > 0 && IsSpace(s[|s| - 1]) then TrailingStart(s[..|s| - 1]) else |s|
  }

  lemma {:induction false} LeadingAreSpaces(s: string)
    ensures forall i :: 0 <= i < LeadingSpaces(s) ==> IsSpace(s[i])
    decreases |s|
  {
    if |s| > 0 && IsSpace(s[0]) {
      LeadingAreSpaces(s[1..]);
    }
  }

  lemma {:induction false} TrailingAreSpaces(s: string)
    ensures forall i :: TrailingStart(s) <= i < |s| ==> IsSpace(s[i])
    decreases |s|
  {
    if |s| > 0 && IsSpace(s[|s| - 1]) {
      TrailingAreSpaces(s[..|s| - 1]);
    }
  }

  /** str.lstrip() */
  function TrimLeft(s: string): (r: string)
    ensures r == s[LeadingSpaces(s)..]
    ensures r == [] || !IsSpace(r[0])
  {
    s[LeadingSpaces(s)..]
  }

  /** str.rstrip() */
  function TrimRight(s: string): (r: string)
    ensures r == s[..TrailingStart(s)]
    ensures r == [] || !IsSpace(r[|r| - 1])
  {
    s[..TrailingStart(s)]
  }

  /** str.strip(): the whitespace at both ends removed, nothing else. */
  function Strip(s: string): (r: string)
    ensures |r| <= |s|
    ensures r == [] || (!IsSpace(r[0]) && !IsSpace(r[|r| - 1]))
  {
    TrimRight(TrimLeft(s))
  }

  lemma StripOfSpaceless(s: string)
    requires s == [] || (!IsSpace(s[0]) && !IsSpace(s[|s| - 1]))
    ensures Strip(s) == s
  {
  }

  lemma StripIdempotent(s: string)
    ensures Strip(Strip(s)) == Strip(s)
  {
    StripOfSpaceless(Strip(s));
  }

  /** Strip(s) is empty exactly when s is all whitespace. */
  lemma StripEmptyIff(s: string)
    ensures Strip(s) == [] <==> forall i :: 0 <= i < |s| ==> IsSpace(s[i])
  {
    var k := LeadingSpaces(s);
    LeadingAreSpaces(s);
    if k < |s| {
      assert !IsSpace(s[k]);
      assert TrimLeft(s)[0] == s[k];
      TrailingAreSpaces(TrimLeft(s));
      assert TrailingStart(TrimLeft(s)) > 0;
    }
  }

  /** ASCII case mapping: the model's stand-in for str.lower() / str.upper(). */
  function LowerChar(c: char): char {
    if 'A' <= c <= 'Z' then (c as int + 32) as char else c
  }

  function UpperChar(c: char): char {
    if 'a' <= c <= 'z' then (c as int - 32) as char else c
  }

  function Lower(s: string): (r: string)
    ensures |r| == |s| && forall i :: 0 <= i < |s| ==> r[i] == LowerChar(s[i])
  {
    seq(|s|, i requires 0 <= i < |s| => LowerChar(s[i]))
  }

  function Upper(s: string): (r: string)
    ensures |r| == |s| && forall i :: 0 <= i < |s| ==> r[i] == UpperChar(s[i])
  {
    seq(|s|, i requires 0 <= i < |s| => UpperChar(s[i]))
  }

  /** Lower-casing first does not change what upper() gives, and the other way round. */
  lemma CaseMapsAbsorb(s: string)
    ensures Upper(Lower(s)) == Upper(s)
    ensures Lower(Upper(s)) == Lower(s)
  {
  }

  predicate StartsWith(s: string, p: string) {
    |p| <= |s| && s[..|p|] == p
  }

  predicate EndsWith(s: string, p: string) {
    |p| <= |s| && s[|s| - |p|..] == p
  }

  /** Python's `sub in s`. */
  predicate Contains(s: string, sub: string)
    decreases |s|
  {
    StartsWith(s, sub) || (|s| > 0 && Contains(s[1..], sub))
  }

  lemma {:induction false} ContainsAt(s: string, sub: string, i: nat)
    requires i + |sub| <= |s| && s[i..i + |sub|] == sub
    ensures Contains(s, sub)
    decreases i
  {
    if i > 0 {
      assert s[1..][i - 1..i - 1 + |sub|] == sub;
      ContainsAt(s[1..], sub, i - 1);
    }
  }

  lemma {:induction false} ContainsWitness(s: string, sub: string) returns (i: nat)
    requires Contains(s, sub)
    ensures i + |sub| <= |s| && s[i..i + |sub|] == sub
    decreases |s|
  {
    if StartsWith(s, sub) {
      i := 0;
    } else {
      var j := ContainsWitness(s[1..], sub);
      i := j + 1;
      assert s[i..i + |sub|] == s[1..][j..j + |sub|];
    }
  }

  /** Index of the first occurrence of c in s, or |s| when there is none. */
  function IndexOf(s: string, c: char): (k: nat)
    ensures k <= |s|
    ensures k < |s| ==> s[k] == c
    ensures forall i :: 0 <= i < k ==> s[i] != c
  {
    if |s| == 0 then 0 else if s[0] == c then 0 else 1 + IndexOf(s[1..], c)
  }

  /** sep.join(parts) */
  function JoinWith(parts: seq<string>, sep: string): string {
    if |parts| == 0 then ""
    else if |parts| == 1 then parts[0]
    else parts[0] + sep + JoinWith(parts[1..], sep)
  }

  /** s.split(c) for a one-character separator. */
  function Split(s: string, c: char): (r: seq<string>)
    ensures |r| >= 1
    ensures forall k :: 0 <= k < |r| ==> c !in r[k]
    decreases |s|
  {
    var k := IndexOf(s, c);
    if k == |s| then [s] else [s[..k]] + Split(s[k + 1..], c)
  }

  lemma {:induction false} SplitJoin(s: string, c: char)
    ensures JoinWith(Split(s, c), [c]) == s
    decreases |s|
  {
    var k := IndexOf(s, c);
    if k < |s| {
      var r := Split(s[k + 1..], c);
      SplitJoin(s[k + 1..], c);
      assert Split(s, c) == [s[..k]] + r;
      assert ([s[..k]] + r)[1..] == r;
      assert JoinWith([s[..k]] + r, [c]) == s[..k] + [c] + JoinWith(r, [c]);
      assert s == s[..k] + [c] + s[k + 1..];
    }
  }

  lemma {:induction false} JoinSplit(parts: seq<string>, c: char)
    requires |parts| >= 1
    requires forall k :: 0 <= k < |parts| ==> c !in parts[k]
    ensures Split(JoinWith(parts, [c]), c) == parts
  {
    var s := JoinWith(parts, [c]);
    if |parts| == 1 {
      assert IndexOf(s, c) == |s|;
    } else {
      var tail := JoinWith(parts[1..], [c]);
      assert s == parts[0] + [c] + tail;
      assert IndexOf(s, c) == |parts[0]| by {
        assert s[|parts[0]|] == c;
        forall i | 0 <= i < |parts[0]| ensures s[i] != c {
          assert s[i] == parts[0][i];
        }
      }
      assert s[..|parts[0]|] == parts[0];
      assert s[|parts[0]| + 1..] == tail;
      JoinSplit(parts[1..], c);
    }
  }

  /** Index of the first whitespace character of s, or |s|. */
  function FirstSpace(s: string): (k: nat)
    ensures k <= |s|
    ensures k < |s| ==> IsSpace(s[k])
    ensures forall i :: 0 <= i < k ==> !IsSpace(s[i])
  {
    if |s| == 0 then 0 else if IsSpace(s[0]) then 0 else 1 + FirstSpace(s[1..])
  }

  /** s.split(): the maximal runs of non-whitespace characters, in order. */
  function SplitWhitespace(s: string): (r: seq<string>)
    ensures forall k :: 0 <= k < |r| ==> r[k] != [] && NoSpace(r[k])
    decreases |s|
  {
    var t := TrimLeft(s);
    if t == [] then []
    else
      var k := FirstSpace(t);
      assert NoSpace(t[..k]);
      [t[..k]] + SplitWhitespace(t[k..])
  }

  /** A leading space only adds to the whitespace split() skips. */
  lemma SplitWhitespaceSpace(tail: string)
    ensures SplitWhitespace(" " + tail) == SplitWhitespace(tail)
  {
    assert (" " + tail)[1..] == tail;
    assert TrimLeft(" " + tail) == TrimLeft(tail);
  }

  lemma SplitWhitespaceWord(t: string, tail: string)
    requires t != [] && NoSpace(t)
    requires tail == [] || IsSpace(tail[0])
    ensures SplitWhitespace(t + tail) == [t] + SplitWhitespace(tail)
  {
    var s := t + tail;
    assert LeadingSpaces(s) == 0 by { assert s[0] == t[0]; }
    assert FirstSpace(s) == |t| by {
      forall i | 0 <= i < |t| ensures !IsSpace(s[i]) {
        assert s[i] == t[i];
      }
      if tail != [] {
        assert s[|t|] == tail[0];
      }
    }
    assert s[..|t|] == t;
    assert s[|t|..] == tail;
  }

  /** Joining non-empty whitespace-free tokens with spaces and splitting again gives them back. */
  lemma {:induction false} SplitWhitespaceJoin(toks: seq<string>)
    requires forall k :: 0 <= k < |toks| ==> toks[k] != [] && NoSpace(toks[k])
    ensures SplitWhitespace(JoinWith(toks, " ")) == toks
  {
    if |toks| == 1 {
      SplitWhitespaceWord(toks[0], "");
      assert toks[0] + "" == toks[0];
    } else if |toks| > 1 {
      var tail := JoinWith(toks[1..], " ");
      assert JoinWith(toks, " ") == toks[0] + (" " + tail);
      SplitWhitespaceWord(toks[0], " " + tail);
      SplitWhitespaceSpace(tail);
      SplitWhitespaceJoin(toks[1..]);
      assert [toks[0]] + toks[1..] == toks;
    }
  }

  /** re.sub(r"\s+", " ", s).strip(): the words of s separated by single spaces. */
  function Collapse(s: string): string {
    JoinWith(SplitWhitespace(s), " ")
  }

  /** Collapsing keeps the words of the text. */
  lemma CollapseWords(s: string)
    ensures SplitWhitespace(Collapse(s)) == SplitWhitespace(s)
  {
    SplitWhitespaceJoin(SplitWhitespace(s));
  }

  lemma CollapseIdempotent(s: string)
    ensures Collapse(Collapse(s)) == Collapse(s)
  {
    CollapseWords(s);
  }

  /** A collapsed text neither starts nor ends with whitespace. */
  lemma {:induction false} CollapseStripped(s: string)
    ensures var c := Collapse(s); c == [] || (!IsSpace(c[0]) && !IsSpace(c[|c| - 1]))
  {
    var w := SplitWhitespace(s);
    if |w| > 0 {
      JoinEnds(w);
    }
  }

  /** The first character of a join comes from the first part and the last from the last. */
  lemma {:induction false} JoinEnds(w: seq<string>)
    requires |w| > 0 && forall k :: 0 <= k < |w| ==> w[k] != []
    ensures var j := JoinWith(w, " "); |j| > 0 && j[0] == w[0][0] && j[|j| - 1] == w[|w| - 1][|w[|w| - 1]| - 1]
  {
    if |w| > 1 {
      var tail := w[1..];
      JoinEnds(tail);
      var t := JoinWith(tail, " ");
      assert JoinWith(w, " ") == w[0] + " " + t;
      assert w[|w| - 1] == tail[|tail| - 1];
    }
  }

  /** Index of the last occurrence of c in s, if any. */
  function LastIndexOf(s: string, c: char): (r: Option<nat>)
    ensures r.Some? ==> r.value < |s| && s[r.value] == c && forall i :: r.value < i < |s| ==> s[i] != c
    ensures r.None? ==> forall i :: 0 <= i < |s| ==> s[i] != c
    decreases |s|
  {
    if s == [] then None
    else if s[|s| - 1] == c then Some(|s| - 1)
    else LastIndexOf(s[..|s| - 1], c)
  }

  predicate IsDigit(c: char) {
    '0' <= c <= '9'
  }

  function DigitChar(d: nat): (c: char)
    requires d < 10
    ensures IsDigit(c)
  {
    ('0' as int + d) as char
  }

  function DigitValue(c: char): nat
    requires IsDigit(c)
  {
    c as int - '0' as int
  }

  /** str(n) for n >= 0. */
  function NatToString(n: nat): (r: string)
    ensures |r| >= 1 && forall i :: 0 <= i < |r| ==> IsDigit(r[i])
  {
    if n < 10 then [DigitChar(n)] else NatToString(n / 10) + [DigitChar(n % 10)]
  }

  /** str(n) */
  function IntToString(n: int): string {
    if n < 0 then "-" + NatToString(-n) else NatToString(n)
  }

  /** The digits of a Python integer literal: digits, with single underscores between digits. */
  predicate DigitGroups(s: string) {
    |s| >= 1 && IsDigit(s[0]) && IsDigit(s[|s| - 1])
    && (forall i :: 0 <= i < |s| ==> IsDigit(s[i]) || s[i] == '_')
    && (forall i :: 0 <= i < |s| - 1 ==> s[i] == '_' ==> s[i + 1] != '_')
  }

  /** The value of a digit string, underscores skipped. */
  function DigitsValue(s: string): nat
    requires forall i :: 0 <= i < |s| ==> IsDigit(s[i]) || s[i] == '_'
  {
    if s == [] then 0
    else if s[|s| - 1] == '_' then DigitsValue(s[..|s| - 1])
    else DigitsValue(s[..|s| - 1]) * 10 + DigitValue(s[|s| - 1])
  }

  /** int(s) for a decimal string: surrounding whitespace, an optional sign, digit groups. */
  function ParseInt(s: string): Option<int> {
    var t := Strip(s);
    if |t| >= 1 && (t[0] == '-' || t[0] == '+') then
      if DigitGroups(t[1..]) then
        var v: int := DigitsValue(t[1..]);
        Some(if t[0] == '-' then -v else v)
      else None
    else if DigitGroups(t) then Some(DigitsValue(t))
    else None
  }

  lemma {:induction false} NatToStringValue(n: nat)
    ensures DigitsValue(NatToString(n)) == n
  {
    if n >= 10 {
      var r := NatToString(n);
      assert r[..|r| - 1] == NatToString(n / 10);
      NatToStringValue(n / 10);
    }
  }

  lemma AllDigitsAreGroups(d: string)
    requires |d| >= 1 && forall i :: 0 <= i < |d| ==> IsDigit(d[i])
    ensures DigitGroups(d)
  {
  }

  lemma NegativeLiteral(d: string)
    requires Strip("-" + d) == "-" + d && DigitGroups(d)
    ensures ParseInt("-" + d) == Some(0 - DigitsValue(d) as int)
  {
    assert ("-" + d)[1..] == d;
  }

  lemma SignedLiteral(d: string)
    requires |d| >= 1 && forall i :: 0 <= i < |d| ==> IsDigit(d[i])
    ensures ParseInt("-" + d) == Some(0 - DigitsValue(d) as int)
  {
    var s := "-" + d;
    assert DigitGroups(d) by {
      AllDigitsAreGroups(d);
    }
    assert Strip(s) == s by {
      assert s[|s| - 1] == d[|d| - 1];
      assert IsDigit(d[|d| - 1]);
      StripOfSpaceless(s);
    }
    NegativeLiteral(d);
  }

  lemma PlainLiteral(d: string)
    requires Strip(d) == d && DigitGroups(d)
    ensures ParseInt(d) == Some(DigitsValue(d))
  {
  }

  lemma UnsignedLiteral(d: string)
    requires |d| >= 1 && forall i :: 0 <= i < |d| ==> IsDigit(d[i])
    ensures ParseInt(d) == Some(DigitsValue(d))
  {
    assert Strip(d) == d by {
      assert IsDigit(d[0]) && IsDigit(d[|d| - 1]);
      StripOfSpaceless(d);
    }
    assert DigitGroups(d) by {
      AllDigitsAreGroups(d);
    }
    PlainLiteral(d);
  }

  /** int(str(n)) == n */
  lemma ParseIntRoundTrip(n: int)
    ensures ParseInt(IntToString(n)) == Some(n)
  {
    var m: nat := if n < 0 then -n else n;
    NatToStringValue(m);
    if n < 0 {
      SignedLiteral(NatToString(m));
    } else {
      UnsignedLiteral(NatToString(m));
    }
  }

  /** No element twice. */
  predicate Distinct(s: seq<string>) {
    forall i, j :: 0 <= i < j < |s| ==> s[i] != s[j]
  }

  /** The list with later repeats removed, first occurrences in order. */
  function Dedupe(ids: seq<string>): seq<string>
    decreases |ids|
  {
    if ids == [] then []
    else
      var init := ids[..|ids| - 1];
      if ids[|ids| - 1] in init then Dedupe(init) else Dedupe(init) + [ids[|ids| - 1]]
  }

  /** Position of the first occurrence of x. */
  function FirstIndex(ids: seq<string>, x: string): (k: nat)
    requires x in ids
    ensures k < |ids| && ids[k] == x && forall j :: 0 <= j < k ==> ids[j] != x
  {
    if ids[0] == x then 0 else 1 + FirstIndex(ids[1..], x)
  }

  lemma {:induction false} FirstIndexAppend(ids: seq<string>, x: string, y: string)
    requires y in ids
    ensures FirstIndex(ids + [x], y) == FirstIndex(ids, y)
  {
    var k := FirstIndex(ids, y);
    var k' := FirstIndex(ids + [x], y);
    assert (ids + [x])[k] == y;
    assert k' <= k;
  }

  /** Each element once, the same elements as the input, in the order of their first occurrence. */
  lemma {:induction false} DedupeProperties(ids: seq<string>)
    ensures Distinct(Dedupe(ids))
    ensures forall x :: x in Dedupe(ids) <==> x in ids
    ensures forall i, j :: 0 <= i < j < |Dedupe(ids)| ==>
      FirstIndex(ids, Dedupe(ids)[i]) < FirstIndex(ids, Dedupe(ids)[j])
    decreases |ids|
  {
    if ids != [] {
      var init, x := ids[..|ids| - 1], ids[|ids| - 1];
      DedupeProperties(init);
      assert ids == init + [x];
      var d := Dedupe(ids);
      forall y | y in init ensures FirstIndex(ids, y) == FirstIndex(init, y) {
        FirstIndexAppend(init, x, y);
      }
      if x !in init {
        assert FirstIndex(ids, x) == |init|;
      }
      assert forall k :: 0 <= k < |d| ==> d[k] in init || d[k] == x;
    }
  }

  /** A list without repeats is kept as it is. */
  lemma {:induction false} DedupeOfDistinct(ids: seq<string>)
    requires Distinct(ids)
    ensures Dedupe(ids) == ids
    decreases |ids|
  {
    if ids != [] {
      var init := ids[..|ids| - 1];
      DedupeOfDistinct(init);
      assert ids == init + [ids[|ids| - 1]];
    }
  }

  /** The first occurrence of c is found before the end of a, so nothing after a matters. */
  lemma {:induction false} IndexOfAppend(a: string, b: string, c: char)
    ensures IndexOf(a, c) < |a| ==> IndexOf(a + b, c) == IndexOf(a, c)
    ensures IndexOf(a, c) == |a| ==> IndexOf(a + b, c) == |a| + IndexOf(b, c)
  {
    var k := IndexOf(a + b, c);
    if IndexOf(a, c) < |a| {
      assert (a + b)[IndexOf(a, c)] == c;
    } else {
      assert (a + b)[|a|..] == b;
      forall i | 0 <= i < |a| ensures (a + b)[i] != c {
        assert (a + b)[i] == a[i];
      }
      if IndexOf(b, c) < |b| {
        assert (a + b)[|a| + IndexOf(b, c)] == c;
      }
      forall i | |a| <= i < |a| + IndexOf(b, c) ensures (a + b)[i] != c {
        assert (a + b)[i] == b[i - |a|];
      }
    }
  }

  /** A text without the separator is one part. */
  lemma SplitNone(s: string, c: char)
    requires c !in s
    ensures Split(s, c) == [s]
  {
    assert IndexOf(s, c) == |s|;
  }

  /** A field without the separator, then the separator, comes off as the first part. */
  lemma SplitHead(a: string, b: string, c: char)
    requires c !in a
    ensures Split(a + [c] + b, c) == [a] + Split(b, c)
  {
    var s := a + [c] + b;
    assert IndexOf(a, c) == |a|;
    IndexOfAppend(a, [c] + b, c);
    assert s == a + ([c] + b);
    assert IndexOf([c] + b, c) == 0;
    assert s[..|a|] == a && s[|a| + 1..] == b;
  }

  /** Splitting at one separator splits the two sides separately. */
  lemma {:induction false} SplitConcat(a: string, b: string, c: char)
    ensures Split(a + [c] + b, c) == Split(a, c) + Split(b, c)
    decreases |a|
  {
    var k := IndexOf(a, c);
    if k == |a| {
      SplitNone(a, c);
      SplitHead(a, b, c);
    } else {
      var x, rest := a[..k], a[k + 1..];
      assert c !in x;
      assert a == x + [c] + rest;
      assert a + [c] + b == x + [c] + (rest + [c] + b);
      SplitHead(x, rest, c);
      SplitHead(x, rest + [c] + b, c);
      SplitConcat(rest, b, c);
      ConsAssoc(x, Split(rest, c), Split(b, c));
    }
  }

  lemma ConsAssoc(x: string, p: seq<string>, q: seq<string>)
    ensures [x] + (p + q) == ([x] + p) + q
  {
  }

  /** A single leading space is stripped from a text that has no whitespace at its ends. */
  lemma StripSpacePrefix(s: string)
    requires s != [] && !IsSpace(s[0]) && !IsSpace(s[|s| - 1])
    ensures Strip(" " + s) == s
  {
    assert (" " + s)[1..] == s;
    assert LeadingSpaces(" " + s) == 1;
    assert TrimLeft(" " + s) == s;
  }

  /** One more element is kept exactly when it has not occurred before. */
  lemma DedupeAppend(s: seq<string>, x: string)
    ensures x in Dedupe(s) <==> x in s
    ensures Dedupe(s + [x]) == if x in s then Dedupe(s) else Dedupe(s) + [x]
  {
    DedupeProperties(s);
    assert (s + [x])[..|s|] == s;
  }
  /** Joining one more part appends the separator and that part. */
  lemma {:induction false} JoinSnoc(parts: seq<string>, x: string, sep: string)
    requires parts != []
    ensures JoinWith(parts + [x], sep) == JoinWith(parts, sep) + sep + x
    decreases |parts|
  {
    if |parts| > 1 {
      JoinSnoc(parts[1..], x, sep);
      assert (parts + [x])[1..] == parts[1..] + [x];
    } else {
      assert (parts + [x])[1..] == [x];
    }
  }
}
