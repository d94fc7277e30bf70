/**
 * The hand-written IMAP response parsing of src/utils/message_parser.py:
 * the depth- and quote-aware tokenizer for parenthesised data (ENVELOPE and
 * address structures, section 7.4.2 of RFC 3501), address lists, the
 * ENVELOPE field mapping, BODYSTRUCTURE parameters and size, and FLAGS.
 */
module MessageParser {
  import opened Opt
  import opened Strings

  // ---------------------------------------------------------------------
  // parse_envelope_parts
  // ---------------------------------------------------------------------

  /** The scanner state of parse_envelope_parts apart from the token being built. */
  datatype Mode = Mode(depth: int, inQuotes: bool, escapeNext: bool)

  const Top := Mode(0, false, false)

  /** How one character moves the scanner: an escaped character changes nothing,
      a backslash escapes the next one, a quote toggles quoting, and outside
      quotes parentheses move the depth. */
  function Next(m: Mode, c: char): Mode {
    if m.escapeNext then m.(escapeNext := false)
    else if c == '\\' then m.(escapeNext := true)
    else if c == '"' then m.(inQuotes := !m.inQuotes)
    else if m.inQuotes then m
    else if c == '(' then m.(depth := m.depth + 1)
    else if c == ')' then m.(depth := m.depth - 1)
    else m
  }

  /** The mode after scanning s from mode m. */
  function Run(m: Mode, s: string): Mode
    decreases |s|
  {
    if s == [] then m else Run(Next(m, s[0]), s[1..])
  }

  /** c, met in mode m, ends the current token: a space at depth 0, outside quotes, not escaped. */
  predicate IsSplit(m: Mode, c: char) {
    c == ' ' && !m.escapeNext && !m.inQuotes && m.depth == 0
  }

  /** The character at position i of s (scanned from m) separates two tokens. */
  predicate SplitsAt(m: Mode, s: string, i: nat)
    requires i < |s|
  {
    IsSplit(Run(m, s[..i]), s[i])
  }

  /** The raw tokens of s scanned from mode m: s cut at its separating spaces. */
  function Segments(m: Mode, s: string): (r: seq<string>)
    ensures |r| >= 1
    decreases |s|
  {
    if s == [] then [""]
    else
      var rest := Segments(Next(m, s[0]), s[1..]);
      if IsSplit(m, s[0]) then [""] + rest else [[s[0]] + rest[0]] + rest[1..]
  }

  lemma StripAllAppend(segs: seq<string>, x: string)
    ensures StripAll(segs + [x]) == StripAll(segs) + [Strip(x)]
  {
  }

  function StripAll(segs: seq<string>): (r: seq<string>)
    ensures |r| == |segs|
  {
    seq(|segs|, k requires 0 <= k < |segs| => Strip(segs[k]))
  }

  /** The last token is kept only when it is not blank. */
  function FinalToken(last: string): seq<string> {
    if Strip(last) != "" then [Strip(last)] else []
  }

  /** The tokens of the text between the outer parentheses. */
  function Tokens(inner: string): seq<string> {
    var segs := Segments(Top, inner);
    StripAll(segs[..|segs| - 1]) + FinalToken(segs[|segs| - 1])
  }

  /** s.startswith('(') and s.endswith(')'); a lone "(" is not. */
  predicate Parenthesised(s: string) {
    |s| >= 2 && s[0] == '(' && s[|s| - 1] == ')'
  }

  /** The text between the outer parentheses of a parenthesised string. */
  function Inner(s: string): string
    requires Parenthesised(s)
  {
    s[1..|s| - 1]
  }

  /** parse_envelope_parts: the top-level tokens of "( ... )", or [] for anything else. */
  function EnvelopeParts(s: string): seq<string> {
    if Parenthesised(s) then Tokens(Inner(s)) else []
  }

  /** The tokens already finished, the one being built, and what the rest of the text yields. */
  function Glue(done: seq<string>, current: string, rest: seq<string>): seq<string>
    requires |rest| >= 1
  {
    done + [current + rest[0]] + rest[1..]
  }

  /** One scanned character, seen from the loop: a separator finishes the current token,
      any other character is added to it. */
  lemma GlueStep(done: seq<string>, current: string, m: Mode, c: char, tail: string)
    ensures var rest := Segments(Next(m, c), tail);
            if IsSplit(m, c) then Glue(done, current, Segments(m, [c] + tail)) == Glue(done + [current], "", rest)
            else Glue(done, current, Segments(m, [c] + tail)) == Glue(done, current + [c], rest)
  {
    var rest := Segments(Next(m, c), tail);
    assert ([c] + tail)[0] == c && ([c] + tail)[1..] == tail;
    if IsSplit(m, c) {
      assert ([""] + rest)[1..] == rest;
      assert [rest[0]] + rest[1..] == rest;
      assert current + "" == current && "" + rest[0] == rest[0];
    } else {
      assert current + ([c] + rest[0]) == (current + [c]) + rest[0];
    }
  }

  /** The character loop of parse_envelope_parts (message_parser.py:70-112). */
  method ParseEnvelopeParts(s: string) returns (parts: seq<string>)
    ensures parts == EnvelopeParts(s)
    ensures !Parenthesised(s) ==> parts == []
  {
    if !Parenthesised(s) {
      return [];
    }
    var inner := Inner(s);
    parts := [];
    var current := "";
    var depth, inQuotes, escapeNext := 0, false, false;
    ghost var done: seq<string> := [];
    var i := 0;
    assert inner[0..] == inner;
    assert Glue(done, current, Segments(Top, inner)) == Segments(Top, inner) by {
      var r := Segments(Top, inner);
      assert [r[0]] + r[1..] == r;
      assert "" + r[0] == r[0];
    }
    while i < |inner|
      invariant 0 <= i <= |inner|
      invariant parts == StripAll(done)
      invariant Glue(done, current, Segments(Mode(depth, inQuotes, escapeNext), inner[i..]))
                == Segments(Top, inner)
    {
      var c := inner[i];
      ghost var m, done0, current0 := Mode(depth, inQuotes, escapeNext), done, current;
      if escapeNext {
        current := current + [c];
        escapeNext := false;
      } else if c == '\\' {
        escapeNext := true;
        current := current + [c];
      } else if c == '"' {
        inQuotes := !inQuotes;
        current := current + [c];
      } else {
        var split := false;
        if !inQuotes {
          if c == '(' {
            depth := depth + 1;
          } else if c == ')' {
            depth := depth - 1;
          } else if c == ' ' && depth == 0 {
            StripAllAppend(done, current);
            parts := parts + [Strip(current)];
            done := done + [current];
            current := "";
            split := true;
          }
        }
        if !split {
          current := current + [c];
        }
      }
      assert Mode(depth, inQuotes, escapeNext) == Next(m, c);
      if IsSplit(m, c) {
        assert done == done0 + [current0] && current == "";
      } else {
        assert done == done0 && current == current0 + [c];
      }
      assert inner[i..] == [c] + inner[i + 1..];
      GlueStep(done0, current0, m, c, inner[i + 1..]);
      i := i + 1;
    }
    assert inner[i..] == [];
    assert Segments(Mode(depth, inQuotes, escapeNext), []) == [""];
    assert current + "" == current;
    assert Segments(Top, inner) == done + [current];
    if Strip(current) != "" {
      parts := parts + [Strip(current)];
    }
  }

  /** Join of sequences whose first element is extended by one character. */
  lemma JoinConsFirst(c: char, r0: string, rt: seq<string>, sep: string)
    ensures JoinWith([[c] + r0] + rt, sep) == [c] + JoinWith([r0] + rt, sep)
  {
    if |rt| > 0 {
      assert ([[c] + r0] + rt)[1..] == rt;
      assert ([r0] + rt)[1..] == rt;
    }
  }

  /** Joining the raw tokens with single spaces gives back the scanned text: nothing is lost or added. */
  lemma {:induction false} SegmentsJoin(m: Mode, s: string)
    ensures JoinWith(Segments(m, s), " ") == s
    decreases |s|
  {
    if s != [] {
      var rest := Segments(Next(m, s[0]), s[1..]);
      SegmentsJoin(Next(m, s[0]), s[1..]);
      if IsSplit(m, s[0]) {
        assert ([""] + rest)[1..] == rest;
        assert s == [s[0]] + s[1..];
      } else {
        JoinConsFirst(s[0], rest[0], rest[1..], " ");
        assert [rest[0]] + rest[1..] == rest;
      }
    }
  }

  /** Position i of the joined text is one of the separators between segs. */
  predicate IsSep(segs: seq<string>, i: int)
    decreases |segs|
  {
    |segs| >= 2 && (i == |segs[0]| || (i > |segs[0]| && IsSep(segs[1..], i - |segs[0]| - 1)))
  }

  lemma IsSepShift(c: char, r0: string, rt: seq<string>, i: int)
    ensures IsSep([[c] + r0] + rt, i) == (i >= 1 && IsSep([r0] + rt, i - 1))
  {
    assert ([[c] + r0] + rt)[1..] == rt;
    assert ([r0] + rt)[1..] == rt;
  }

  lemma RunPrefix(m: Mode, s: string, i: nat)
    requires 1 <= i <= |s|
    ensures Run(m, s[..i]) == Run(Next(m, s[0]), s[1..][..i - 1])
  {
    assert s[..i][1..] == s[1..][..i - 1];
  }

  /** The tokenizer cuts exactly at the separating spaces: a position of s separates two
      tokens if and only if it holds a space at depth 0, outside quotes and not escaped. */
  lemma {:induction false} SeparatorsAreSplits(m: Mode, s: string, i: nat)
    requires i < |s|
    ensures SplitsAt(m, s, i) <==> IsSep(Segments(m, s), i)
    decreases |s|
  {
    var rest := Segments(Next(m, s[0]), s[1..]);
    if i == 0 {
      assert s[..0] == [];
    } else {
      RunPrefix(m, s, i);
      SeparatorsAreSplits(Next(m, s[0]), s[1..], i - 1);
      if IsSplit(m, s[0]) {
        assert ([""] + rest)[1..] == rest;
      } else {
        IsSepShift(s[0], rest[0], rest[1..], i);
        assert [rest[0]] + rest[1..] == rest;
      }
    }
  }

  /** Scanning s from mode m never meets a separator. */
  predicate NoSplitFrom(m: Mode, s: string)
    decreases |s|
  {
    s == [] || (!IsSplit(m, s[0]) && NoSplitFrom(Next(m, s[0]), s[1..]))
  }

  lemma {:induction false} RunConcat(m: Mode, a: string, b: string)
    ensures Run(m, a + b) == Run(Run(m, a), b)
    decreases |a|
  {
    if a == [] {
      assert a + b == b;
    } else {
      assert (a + b)[1..] == a[1..] + b;
      RunConcat(Next(m, a[0]), a[1..], b);
    }
  }

  lemma {:induction false} NoSplitConcat(m: Mode, a: string, b: string)
    requires NoSplitFrom(m, a) && NoSplitFrom(Run(m, a), b)
    ensures NoSplitFrom(m, a + b)
    decreases |a|
  {
    if a == [] {
      assert a + b == b;
    } else {
      assert (a + b)[0] == a[0] && (a + b)[1..] == a[1..] + b;
      NoSplitConcat(Next(m, a[0]), a[1..], b);
    }
  }

  /** At depth d and outside quotes, s is balanced: scanning it returns to the same mode
      and never separates two tokens. */
  predicate Neutral(d: int, s: string) {
    Run(Mode(d, false, false), s) == Mode(d, false, false) && NoSplitFrom(Mode(d, false, false), s)
  }

  lemma NeutralConcat(d: int, a: string, b: string)
    requires Neutral(d, a) && Neutral(d, b)
    ensures Neutral(d, a + b)
  {
    RunConcat(Mode(d, false, false), a, b);
    NoSplitConcat(Mode(d, false, false), a, b);
  }

  lemma NeutralConcat3(d: int, a: string, b: string, c: string)
    requires Neutral(d, a) && Neutral(d, b) && Neutral(d, c)
    ensures Neutral(d, a + b + c)
  {
    NeutralConcat(d, a, b);
    NeutralConcat(d, a + b, c);
  }

  /** A parenthesised list of text balanced one level deeper is balanced. */
  lemma NeutralWrap(d: int, x: string)
    requires d >= 0 && Neutral(d + 1, x)
    ensures Neutral(d, "(" + x + ")")
  {
    var m, m1 := Mode(d, false, false), Mode(d + 1, false, false);
    assert Run(m, "(") == m1 && NoSplitFrom(m, "(") by {
      assert "("[1..] == [];
    }
    assert Run(m1, ")") == m && NoSplitFrom(m1, ")") by {
      assert ")"[1..] == [];
    }
    RunConcat(m1, x, ")");
    NoSplitConcat(m1, x, ")");
    RunConcat(m, "(", x + ")");
    NoSplitConcat(m, "(", x + ")");
    assert "(" + x + ")" == "(" + (x + ")");
  }

  /** Below the top level a space does not separate. */
  lemma NeutralSpace(d: int)
    requires d != 0
    ensures Neutral(d, " ")
  {
    assert " "[1..] == [];
  }

  /** A finished top-level token: not blank at its ends and balanced at the top level. */
  predicate Token(t: string) {
    t != [] && !IsSpace(t[0]) && !IsSpace(t[|t| - 1]) && Neutral(0, t)
  }

  /** Scanning a text without separators adds it to the token being built. */
  lemma {:induction false} SegmentsAppend(m: Mode, a: string, b: string)
    requires NoSplitFrom(m, a)
    ensures var rest := Segments(Run(m, a), b);
            Segments(m, a + b) == [a + rest[0]] + rest[1..]
    decreases |a|
  {
    var rest := Segments(Run(m, a), b);
    if a == [] {
      assert [rest[0]] + rest[1..] == rest;
      assert a + b == b && a + rest[0] == rest[0];
    } else {
      SegmentsAppend(Next(m, a[0]), a[1..], b);
      assert (a + b)[1..] == a[1..] + b;
      assert (a + b)[0] == a[0];
      assert [a[0]] + (a[1..] + rest[0]) == a + rest[0];
    }
  }

  /** Tokens joined with single spaces are cut back into exactly those tokens. */
  lemma {:induction false} SegmentsOfTokens(toks: seq<string>)
    requires |toks| >= 1
    requires forall k :: 0 <= k < |toks| ==> Token(toks[k])
    ensures Segments(Top, JoinWith(toks, " ")) == toks
  {
    var t := toks[0];
    assert Token(t);
    if |toks| == 1 {
      SegmentsAppend(Top, t, "");
      assert t + "" == t;
      assert Segments(Top, "") == [""];
    } else {
      var tail := JoinWith(toks[1..], " ");
      SegmentsAppend(Top, t, " " + tail);
      assert t + (" " + tail) == JoinWith(toks, " ");
      SegmentsOfTokens(toks[1..]);
      var r := Segments(Top, " " + tail);
      assert r == [""] + toks[1..] by {
        assert (" " + tail)[1..] == tail;
        assert (" " + tail)[0] == ' ';
      }
      assert r[0] == "" && r[1..] == toks[1..];
      assert t + r[0] == t;
      assert [t] + toks[1..] == toks;
    }
  }

  lemma StripAllTokens(ts: seq<string>)
    requires forall k :: 0 <= k < |ts| ==> Token(ts[k])
    ensures StripAll(ts) == ts
  {
    forall k | 0 <= k < |ts| ensures Strip(ts[k]) == ts[k] {
      assert Token(ts[k]);
      StripOfSpaceless(ts[k]);
    }
  }

  lemma TokensOfSegments(toks: seq<string>, j: string)
    requires |toks| > 0
    requires forall k :: 0 <= k < |toks| ==> Token(toks[k])
    requires Segments(Top, j) == toks
    ensures Tokens(j) == toks
  {
    var n := |toks|;
    var last := toks[n - 1];
    StripAllTokens(toks[..n - 1]);
    assert Token(last);
    StripOfSpaceless(last);
    assert FinalToken(last) == [last];
    assert toks[..n - 1] + [last] == toks;
  }

  lemma TokensOfJoin(toks: seq<string>)
    requires forall k :: 0 <= k < |toks| ==> Token(toks[k])
    ensures Tokens(JoinWith(toks, " ")) == toks
  {
    if |toks| == 0 {
      assert Segments(Top, "") == [""];
    } else {
      SegmentsOfTokens(toks);
      TokensOfSegments(toks, JoinWith(toks, " "));
    }
  }

  /** The tokenizer is the inverse of writing tokens out between parentheses, separated by spaces. */
  lemma TokensRoundTrip(toks: seq<string>)
    requires forall k :: 0 <= k < |toks| ==> Token(toks[k])
    ensures EnvelopeParts("(" + JoinWith(toks, " ") + ")") == toks
  {
    var j := JoinWith(toks, " ");
    var s := "(" + j + ")";
    assert Inner(s) == j;
    TokensOfJoin(toks);
  }

  /** Text of an atom: no whitespace, quotes, backslashes or parentheses. */
  predicate AtomText(t: string) {
    forall i :: 0 <= i < |t| ==> !IsSpace(t[i]) && t[i] !in "\"\\()"
  }

  lemma {:induction false} NeutralAtom(d: int, t: string)
    requires AtomText(t)
    ensures Neutral(d, t)
    decreases |t|
  {
    if t != [] {
      assert AtomText(t[1..]);
      NeutralAtom(d, t[1..]);
    }
  }

  /** An atom (NIL, a number, a plain word) is a top-level token. */
  lemma AtomIsToken(t: string)
    requires t != [] && AtomText(t)
    ensures Token(t)
  {
    NeutralAtom(0, t);
  }

  /** The body of a quoted string: no quote and no backslash. */
  predicate QuotableText(w: string) {
    forall i :: 0 <= i < |w| ==> w[i] != '"' && w[i] != '\\'
  }

  function Quote(w: string): string {
    "\"" + w + "\""
  }

  lemma {:induction false} InsideQuotes(d: int, w: string)
    requires QuotableText(w)
    ensures Run(Mode(d, true, false), w) == Mode(d, true, false)
    ensures NoSplitFrom(Mode(d, true, false), w)
    decreases |w|
  {
    if w != [] {
      assert QuotableText(w[1..]);
      InsideQuotes(d, w[1..]);
    }
  }

  /** A quoted string whose body holds no quote or backslash is balanced at any depth,
      spaces and parentheses inside it included. */
  lemma NeutralQuote(d: int, w: string)
    requires QuotableText(w)
    ensures Neutral(d, Quote(w))
  {
    var m, q := Mode(d, false, false), Mode(d, true, false);
    assert Run(m, "\"") == q && NoSplitFrom(m, "\"") by {
      assert "\""[1..] == [];
    }
    assert Run(q, "\"") == m && NoSplitFrom(q, "\"") by {
      assert "\""[1..] == [];
    }
    InsideQuotes(d, w);
    RunConcat(q, w, "\"");
    NoSplitConcat(q, w, "\"");
    RunConcat(m, "\"", w + "\"");
    NoSplitConcat(m, "\"", w + "\"");
    assert Quote(w) == "\"" + (w + "\"");
  }

  lemma QuotedIsToken(w: string)
    requires QuotableText(w)
    ensures Token(Quote(w))
  {
    NeutralQuote(0, w);
  }

  /** A parenthesised list balanced inside is a top-level token. */
  lemma ListIsToken(x: string)
    requires Neutral(1, x)
    ensures Token("(" + x + ")")
  {
    NeutralWrap(0, x);
  }

  /** An escaped quote is copied into the token and does not change the quoting state. */
  lemma EscapedQuote(m: Mode)
    requires !m.escapeNext
    ensures Run(m, "\\\"") == m
    ensures Segments(m, "\\\"") == ["\\\""]
  {
    var m1 := Next(m, '\\');
    var m2 := Next(m1, '"');
    assert Segments(m2, "") == [""];
    assert Segments(m1, "\"") == ["\""] by {
      assert "\""[1..] == "" && "\""[0] == '"';
      assert !IsSplit(m1, '"');
      assert ['"'] + "" == "\"";
    }
    assert "\\\""[1..] == "\"";
    assert ['\\'] + "\"" == "\\\"";
  }

  // ---------------------------------------------------------------------
  // decode_envelope_field (the NIL and quote handling in front of header decoding)
  // ---------------------------------------------------------------------

  /** Surrounding double quotes removed, as field[1:-1] does. */
  function Unquote(f: string): string {
    if StartsWith(f, "\"") && EndsWith(f, "\"") then (if |f| >= 2 then f[1..|f| - 1] else "") else f
  }

  /** decode_envelope_field: "" for empty or NIL, otherwise the unquoted text, stripped. */
  function DecodeEnvelopeField(f: string): (r: string)
    ensures f == "" || f == "NIL" ==> r == ""
  {
    if f == "" || f == "NIL" then "" else Strip(Unquote(f))
  }

  lemma UnquoteQuote(w: string)
    ensures Unquote(Quote(w)) == w
  {
    var q := Quote(w);
    assert q[..1] == "\"" && q[|q| - 1..] == "\"";
    assert q[1..|q| - 1] == w;
  }

  lemma DecodeQuoted(w: string)
    requires Strip(w) == w
    ensures DecodeEnvelopeField(Quote(w)) == w
  {
    var q := Quote(w);
    assert q != "" && q != "NIL" by {
      assert q[0] == '"';
    }
    UnquoteQuote(w);
  }

  /** A value written as an IMAP nstring: NIL when empty, a quoted string otherwise. */
  function NString(w: string): string {
    if w == "" then "NIL" else Quote(w)
  }

  lemma DecodeNString(w: string)
    requires Strip(w) == w
    ensures DecodeEnvelopeField(NString(w)) == w
  {
    if w != "" {
      DecodeQuoted(w);
    }
  }

  lemma NStringIsToken(w: string)
    requires QuotableText(w)
    ensures Token(NString(w))
  {
    if w == "" {
      AtomIsToken("NIL");
    } else {
      QuotedIsToken(w);
    }
  }

  // ---------------------------------------------------------------------
  // parse_address_parts
  // ---------------------------------------------------------------------

  function DepthAfter(d: int, c: char): int {
    if c == '(' then d + 1 else if c == ')' then d - 1 else d
  }

  /** A ")" that brings the depth back to 0 closes an address part. */
  predicate ClosesPart(d: int, c: char) {
    c == ')' && d - 1 == 0
  }

  /** What a character adds to the part being built: a ")" that leaves the depth
      non-zero is added twice, once before the depth test and once after it. */
  function Emitted(d: int, c: char): string {
    if c == ')' && d - 1 != 0 then "))" else [c]
  }

  /** The raw parts of s scanned from depth d: a part ends with each ")" that closes it. */
  function Groups(d: int, s: string): (r: seq<string>)
    ensures |r| >= 1
    decreases |s|
  {
    if s == [] then [""]
    else
      var rest := Groups(DepthAfter(d, s[0]), s[1..]);
      if ClosesPart(d, s[0]) then [")"] + rest else [Emitted(d, s[0]) + rest[0]] + rest[1..]
  }

  /** parse_address_parts: the stripped closed parts, then the leftover text if not blank. */
  function AddressParts(s: string): seq<string> {
    var g := Groups(0, s);
    StripAll(g[..|g| - 1]) + FinalToken(g[|g| - 1])
  }

  lemma GroupClose(done: seq<string>, current: string, d: int, c: char, tail: string)
    requires ClosesPart(d, c)
    ensures Glue(done, current, Groups(d, [c] + tail))
            == Glue(done + [current + ")"], "", Groups(DepthAfter(d, c), tail))
  {
    var rest := Groups(DepthAfter(d, c), tail);
    assert ([c] + tail)[0] == c && ([c] + tail)[1..] == tail;
    assert Groups(d, [c] + tail) == [")"] + rest;
    assert ([")"] + rest)[1..] == rest;
    assert [rest[0]] + rest[1..] == rest;
    assert "" + rest[0] == rest[0];
  }

  lemma GroupExtend(done: seq<string>, current: string, d: int, c: char, tail: string)
    requires !ClosesPart(d, c)
    ensures Glue(done, current, Groups(d, [c] + tail))
            == Glue(done, current + Emitted(d, c), Groups(DepthAfter(d, c), tail))
  {
    var rest := Groups(DepthAfter(d, c), tail);
    assert ([c] + tail)[0] == c && ([c] + tail)[1..] == tail;
    assert Groups(d, [c] + tail) == [Emitted(d, c) + rest[0]] + rest[1..];
    assert current + (Emitted(d, c) + rest[0]) == (current + Emitted(d, c)) + rest[0];
  }

  /** The character loop of parse_address_parts (message_parser.py:164-186). */
  method ParseAddressParts(s: string) returns (parts: seq<string>)
    ensures parts == AddressParts(s)
  {
    parts := [];
    var current := "";
    var depth := 0;
    ghost var done: seq<string> := [];
    var i := 0;
    assert s[0..] == s;
    assert Glue(done, current, Groups(0, s)) == Groups(0, s) by {
      var r := Groups(0, s);
      assert [r[0]] + r[1..] == r;
      assert "" + r[0] == r[0];
    }
    while i < |s|
      invariant 0 <= i <= |s|
      invariant parts == StripAll(done)
      invariant Glue(done, current, Groups(depth, s[i..])) == Groups(0, s)
    {
      var c := s[i];
      ghost var d0, done0, current0 := depth, done, current;
      var closed := false;
      if c == '(' {
        depth := depth + 1;
      } else if c == ')' {
        depth := depth - 1;
        current := current + [c];
        if depth == 0 {
          StripAllAppend(done, current);
          parts := parts + [Strip(current)];
          done := done + [current];
          current := "";
          closed := true;
        }
      }
      if !closed {
        current := current + [c];
      }
      assert depth == DepthAfter(d0, c);
      assert s[i..] == [c] + s[i + 1..];
      if ClosesPart(d0, c) {
        assert done == done0 + [current0 + ")"] && current == "";
        GroupClose(done0, current0, d0, c, s[i + 1..]);
      } else {
        if c == ')' {
          assert current == (current0 + [c]) + [c] == current0 + "))";
        }
        assert done == done0 && current == current0 + Emitted(d0, c);
        GroupExtend(done0, current0, d0, c, s[i + 1..]);
      }
      i := i + 1;
    }
    assert s[i..] == [];
    assert Groups(depth, []) == [""];
    assert current + "" == current;
    assert Groups(0, s) == done + [current];
    if Strip(current) != "" {
      parts := parts + [Strip(current)];
    }
  }

  /** A ")" that leaves the depth above 0 is doubled in the part. */
  lemma NestedCloseIsDoubled()
    ensures AddressParts("((x))") == ["((x)))"]
  {
    var s4, s3, s2, s1, s0 := ")", "))", "x))", "(x))", "((x))";
    assert s4[0] == ')' && s4[1..] == "";
    assert s3[0] == ')' && s3[1..] == s4;
    assert s2[0] == 'x' && s2[1..] == s3;
    assert s1[0] == '(' && s1[1..] == s2;
    assert s0[0] == '(' && s0[1..] == s1;
    assert Groups(0, "") == [""];
    assert Groups(1, s4) == [")", ""];
    assert "))" + ")" == ")))";
    assert Groups(2, s3) == [")))", ""];
    assert ['x'] + ")))" == "x)))";
    assert Groups(2, s2) == ["x)))", ""];
    assert ['('] + "x)))" == "(x)))";
    assert Groups(1, s1) == ["(x)))", ""];
    assert ['('] + "(x)))" == "((x)))";
    assert Groups(0, s0) == ["((x)))", ""];
    StripOfSpaceless("((x)))");
  }

  predicate NoParens(s: string) {
    forall i :: 0 <= i < |s| ==> s[i] != '(' && s[i] != ')'
  }

  /** Inside one level of parentheses, text without parentheses runs up to the closing ")". */
  lemma {:induction false} GroupsInside(g: string, rest: string)
    requires NoParens(g)
    ensures Groups(1, g + ")" + rest) == [g + ")"] + Groups(0, rest)
    decreases |g|
  {
    var x := g + ")" + rest;
    if g == [] {
      assert x == ")" + rest && x[0] == ')' && x[1..] == rest;
      assert g + ")" == ")";
    } else {
      assert NoParens(g[1..]);
      GroupsInside(g[1..], rest);
      assert x[0] == g[0] && x[1..] == g[1..] + ")" + rest;
      assert [g[0]] + (g[1..] + ")") == g + ")";
    }
  }

  /** Parenthesised groups written one after another, as address lists are. */
  function ConcatWrapped(gs: seq<string>): string {
    if gs == [] then "" else "(" + gs[0] + ")" + ConcatWrapped(gs[1..])
  }

  function Wrapped(gs: seq<string>): (r: seq<string>)
    ensures |r| == |gs|
  {
    if gs == [] then [] else ["(" + gs[0] + ")"] + Wrapped(gs[1..])
  }

  lemma {:induction false} WrappedAt(gs: seq<string>, k: nat)
    requires k < |gs|
    ensures Wrapped(gs)[k] == "(" + gs[k] + ")"
  {
    if k > 0 {
      WrappedAt(gs[1..], k - 1);
    }
  }

  lemma {:induction false} GroupsOfWrapped(gs: seq<string>)
    requires forall k :: 0 <= k < |gs| ==> NoParens(gs[k])
    ensures Groups(0, ConcatWrapped(gs)) == Wrapped(gs) + [""]
  {
    if gs != [] {
      var g, rest := gs[0], ConcatWrapped(gs[1..]);
      var x := "(" + g + ")" + rest;
      assert x[0] == '(' && x[1..] == g + ")" + rest;
      assert NoParens(g);
      GroupsInside(g, rest);
      GroupsOfWrapped(gs[1..]);
      var inner := Groups(1, x[1..]);
      assert inner == [g + ")"] + (Wrapped(gs[1..]) + [""]);
      assert inner[0] == g + ")" && inner[1..] == Wrapped(gs[1..]) + [""];
      assert Groups(0, x) == ["(" + inner[0]] + inner[1..];
      assert "(" + (g + ")") == "(" + g + ")";
    }
  }

  /** Address groups written without separators come back out one by one. */
  lemma AddressPartsOfWrapped(gs: seq<string>)
    requires forall k :: 0 <= k < |gs| ==> NoParens(gs[k])
    ensures AddressParts(ConcatWrapped(gs)) == Wrapped(gs)
  {
    GroupsOfWrapped(gs);
    var w := Wrapped(gs);
    var g := Groups(0, ConcatWrapped(gs));
    assert g[..|g| - 1] == w;
    assert g[|g| - 1] == "";
    assert FinalToken("") == [];
    StripAllWrapped(gs);
  }

  lemma StripAllWrapped(gs: seq<string>)
    ensures StripAll(Wrapped(gs)) == Wrapped(gs)
  {
    var w := Wrapped(gs);
    forall k | 0 <= k < |w| ensures Strip(w[k]) == w[k] {
      WrappedAt(gs, k);
      StripOfSpaceless(w[k]);
    }
  }

  // ---------------------------------------------------------------------
  // parse_address_list
  // ---------------------------------------------------------------------

  /** An address as the envelope parser reports it. */
  datatype EnvAddress = EnvAddress(name: string, email: string)

  /** The address one part describes: a parenthesised part with at least four fields whose
      mailbox (field 2) and host (field 3) are both non-empty. */
  function AddressOfPart(part: string): (r: Option<EnvAddress>)
    ensures r.Some? ==> Parenthesised(part) && |EnvelopeParts(part)| >= 4
  {
    if !Parenthesised(part) then None
    else
      var f := EnvelopeParts(part);
      if |f| < 4 then None
      else
        var mailbox := DecodeEnvelopeField(f[2]);
        var host := DecodeEnvelopeField(f[3]);
        if mailbox != "" && host != "" then Some(EnvAddress(DecodeEnvelopeField(f[0]), mailbox + "@" + host))
        else None
  }

  function AddressesOf(parts: seq<string>): (r: seq<EnvAddress>)
    ensures |r| <= |parts|
  {
    if parts == [] then []
    else
      var rest := AddressesOf(parts[1..]);
      match AddressOfPart(parts[0])
      case Some(a) => [a] + rest
      case None => rest
  }

  /** parse_address_list: [] for empty, NIL or unparenthesised input. */
  function AddressList(a: string): seq<EnvAddress> {
    if a == "" || a == "NIL" then []
    else if Parenthesised(a) then AddressesOf(AddressParts(Inner(a)))
    else []
  }

  /** The loop of parse_address_list (message_parser.py:139-161). */
  method ParseAddressList(a: string) returns (addresses: seq<EnvAddress>)
    ensures addresses == AddressList(a)
  {
    if a == "" || a == "NIL" {
      return [];
    }
    addresses := [];
    if Parenthesised(a) {
      var addrParts := ParseAddressParts(Inner(a));
      var k := 0;
      assert addrParts[0..] == addrParts;
      while k < |addrParts|
        invariant 0 <= k <= |addrParts|
        invariant addresses + AddressesOf(addrParts[k..]) == AddressesOf(addrParts)
      {
        AddressesOfStep(addrParts, k);
        var found := ReadAddress(addrParts[k]);
        ghost var before := addresses;
        if found.Some? {
          addresses := addresses + [found.value];
        }
        assert addresses == before + Found(found);
        AppendAssoc(before, Found(found), AddressesOf(addrParts[k + 1..]));
        k := k + 1;
      }
      assert addrParts[k..] == [];
    }
  }

  lemma AppendAssoc<T>(a: seq<T>, b: seq<T>, c: seq<T>)
    ensures a + (b + c) == (a + b) + c
  {
  }

  /** One turn of that loop: the fields of a parenthesised part, and the address when
      mailbox and host are both present (message_parser.py:149-159). */
  method ReadAddress(part: string) returns (found: Option<EnvAddress>)
    ensures found == AddressOfPart(part)
  {
    found := None;
    if Parenthesised(part) {
      var fields := ParseEnvelopeParts(part);
      if |fields| >= 4 {
        var name := DecodeEnvelopeField(fields[0]);
        var mailbox := DecodeEnvelopeField(fields[2]);
        var host := DecodeEnvelopeField(fields[3]);
        var email := if mailbox != "" && host != "" then mailbox + "@" + host else "";
        if email != "" {
          found := Some(EnvAddress(name, email));
        }
      }
    }
  }

  function Found(r: Option<EnvAddress>): seq<EnvAddress> {
    if r.Some? then [r.value] else []
  }

  lemma AddressesOfStep(parts: seq<string>, k: nat)
    requires k < |parts|
    ensures AddressesOf(parts[k..]) == Found(AddressOfPart(parts[k])) + AddressesOf(parts[k + 1..])
  {
    AddressesOfCons(parts[k..]);
    assert parts[k..][1..] == parts[k + 1..];
  }

  lemma AddressesOfCons(parts: seq<string>)
    requires parts != []
    ensures AddressesOf(parts) == Found(AddressOfPart(parts[0])) + AddressesOf(parts[1..])
  {
  }

  /** A mailbox as a server writes it in an address structure. */
  datatype Mailbox = Mailbox(name: string, mailbox: string, host: string)

  /** Text that survives being written as a quoted string and decoded again. */
  predicate Plain(w: string) {
    QuotableText(w) && NoParens(w) && Strip(w) == w
  }

  predicate WellFormedMailbox(m: Mailbox) {
    Plain(m.name) && Plain(m.mailbox) && Plain(m.host) && m.mailbox != "" && m.host != ""
  }

  /** The four fields of an address structure: name, source route (NIL), mailbox, host. */
  function AddressFields(m: Mailbox): seq<string> {
    [Quote(m.name), "NIL", Quote(m.mailbox), Quote(m.host)]
  }

  function AddressInner(m: Mailbox): string {
    JoinWith(AddressFields(m), " ")
  }

  function AddressInners(ms: seq<Mailbox>): (r: seq<string>)
    ensures |r| == |ms| && forall k :: 0 <= k < |ms| ==> r[k] == AddressInner(ms[k])
  {
    seq(|ms|, k requires 0 <= k < |ms| => AddressInner(ms[k]))
  }

  /** An address list as a server writes it: NIL, or the address structures side by side in parentheses. */
  function AddressListText(ms: seq<Mailbox>): string {
    if ms == [] then "NIL" else "(" + ConcatWrapped(AddressInners(ms)) + ")"
  }

  /** What parse_address_list is meant to report for a list of mailboxes. */
  function Reported(ms: seq<Mailbox>): (r: seq<EnvAddress>)
    ensures |r| == |ms|
  {
    if ms == [] then [] else [EnvAddress(ms[0].name, ms[0].mailbox + "@" + ms[0].host)] + Reported(ms[1..])
  }

  lemma NoParensConcat(a: string, b: string)
    requires NoParens(a) && NoParens(b)
    ensures NoParens(a + b)
  {
  }

  lemma {:induction false} NoParensJoin(parts: seq<string>)
    requires forall k :: 0 <= k < |parts| ==> NoParens(parts[k])
    ensures NoParens(JoinWith(parts, " "))
  {
    if |parts| > 1 {
      NoParensJoin(parts[1..]);
      NoParensConcat(parts[0], " ");
      NoParensConcat(parts[0] + " ", JoinWith(parts[1..], " "));
    }
  }

  lemma AddressFieldsAreTokens(m: Mailbox)
    requires WellFormedMailbox(m)
    ensures forall k :: 0 <= k < 4 ==> Token(AddressFields(m)[k])
    ensures forall k :: 0 <= k < 4 ==> NoParens(AddressFields(m)[k])
  {
    QuotedIsToken(m.name);
    QuotedIsToken(m.mailbox);
    QuotedIsToken(m.host);
    AtomIsToken("NIL");
  }

  /** One written address structure is read back as the mailbox's name and mailbox@host. */
  lemma AddressOfWritten(m: Mailbox)
    requires WellFormedMailbox(m)
    ensures AddressOfPart("(" + AddressInner(m) + ")") == Some(EnvAddress(m.name, m.mailbox + "@" + m.host))
  {
    AddressFieldsAreTokens(m);
    TokensRoundTrip(AddressFields(m));
    DecodeQuoted(m.name);
    DecodeQuoted(m.mailbox);
    DecodeQuoted(m.host);
  }

  lemma {:induction false} AddressesOfWritten(ms: seq<Mailbox>)
    requires forall k :: 0 <= k < |ms| ==> WellFormedMailbox(ms[k])
    ensures AddressesOf(Wrapped(AddressInners(ms))) == Reported(ms)
  {
    var w := Wrapped(AddressInners(ms));
    if ms == [] {
      assert w == [];
    } else {
      var a := EnvAddress(ms[0].name, ms[0].mailbox + "@" + ms[0].host);
      assert w[1..] == Wrapped(AddressInners(ms[1..])) by {
        assert AddressInners(ms)[1..] == AddressInners(ms[1..]);
      }
      assert w[0] == "(" + AddressInner(ms[0]) + ")";
      AddressesOfCons(w);
      AddressOfWritten(ms[0]);
      assert AddressesOf(w) == [a] + AddressesOf(w[1..]);
      AddressesOfWritten(ms[1..]);
      assert Reported(ms) == [a] + Reported(ms[1..]);
    }
  }

  lemma AddressInnerHasNoParens(m: Mailbox)
    requires WellFormedMailbox(m)
    ensures NoParens(AddressInner(m))
  {
    AddressFieldsAreTokens(m);
    NoParensJoin(AddressFields(m));
  }

  /** parse_address_list reads back every well-formed address list, in order, as name and mailbox@host. */
  lemma AddressListRoundTrip(ms: seq<Mailbox>)
    requires forall k :: 0 <= k < |ms| ==> WellFormedMailbox(ms[k])
    ensures AddressList(AddressListText(ms)) == Reported(ms)
  {
    if ms != [] {
      var inners := AddressInners(ms);
      forall k | 0 <= k < |inners| ensures NoParens(inners[k]) {
        AddressInnerHasNoParens(ms[k]);
      }
      var t := AddressListText(ms);
      assert t != "" && t != "NIL" && Parenthesised(t) by {
        assert t[0] == '(';
      }
      assert Inner(t) == ConcatWrapped(inners);
      assert AddressList(t) == AddressesOf(AddressParts(ConcatWrapped(inners)));
      AddressPartsOfWrapped(inners);
      AddressesOfWritten(ms);
    }
  }

  // ---------------------------------------------------------------------
  // parse_envelope
  // ---------------------------------------------------------------------

  /** The dictionary parse_envelope fills when the envelope has all ten fields. */
  datatype Envelope = Envelope(
    date: string, subject: string,
    from: seq<EnvAddress>, sender: seq<EnvAddress>, replyTo: seq<EnvAddress>,
    to: seq<EnvAddress>, cc: seq<EnvAddress>, bcc: seq<EnvAddress>,
    inReplyTo: string, messageId: string)

  /** parse_envelope: None (the empty dictionary) unless there are at least ten top-level
      parts; otherwise parts 0..9 in the order of section 7.4.2 of RFC 3501. */
  function ParseEnvelope(data: string): (r: Option<Envelope>)
    ensures r.Some? <==> |EnvelopeParts(data)| >= 10
    ensures data == "" ==> r == None
  {
    var p := EnvelopeParts(data);
    if |p| < 10 then None
    else
      Some(Envelope(
        DecodeEnvelopeField(p[0]), DecodeEnvelopeField(p[1]),
        AddressList(p[2]), AddressList(p[3]), AddressList(p[4]),
        AddressList(p[5]), AddressList(p[6]), AddressList(p[7]),
        DecodeEnvelopeField(p[8]), DecodeEnvelopeField(p[9])))
  }

  /** Spaces are balanced below the top level, so a space-separated list of balanced texts is too. */
  lemma {:induction false} NeutralJoin(d: int, parts: seq<string>)
    requires d != 0
    requires forall k :: 0 <= k < |parts| ==> Neutral(d, parts[k])
    ensures Neutral(d, JoinWith(parts, " "))
  {
    if |parts| == 1 {
      assert Neutral(d, parts[0]);
    } else if |parts| > 1 {
      NeutralJoin(d, parts[1..]);
      NeutralSpace(d);
      assert Neutral(d, parts[0]);
      NeutralConcat3(d, parts[0], " ", JoinWith(parts[1..], " "));
    }
  }

  lemma {:induction false} NeutralConcatWrapped(d: int, gs: seq<string>)
    requires d >= 0
    requires forall k :: 0 <= k < |gs| ==> Neutral(d + 1, gs[k])
    ensures Neutral(d, ConcatWrapped(gs))
  {
    if gs != [] {
      assert Neutral(d + 1, gs[0]);
      NeutralWrap(d, gs[0]);
      NeutralConcatWrapped(d, gs[1..]);
      NeutralConcat(d, "(" + gs[0] + ")", ConcatWrapped(gs[1..]));
    }
  }

  /** An address structure is balanced two levels down, where it sits in an envelope. */
  lemma AddressInnerNeutral(m: Mailbox)
    requires WellFormedMailbox(m)
    ensures Neutral(2, AddressInner(m))
  {
    var f := AddressFields(m);
    NeutralQuote(2, m.name);
    NeutralAtom(2, "NIL");
    NeutralQuote(2, m.mailbox);
    NeutralQuote(2, m.host);
    assert forall k :: 0 <= k < |f| ==> Neutral(2, f[k]);
    NeutralJoin(2, f);
  }

  predicate WellFormedMailboxes(ms: seq<Mailbox>) {
    forall k :: 0 <= k < |ms| ==> WellFormedMailbox(ms[k])
  }

  /** A written address list is one top-level token of the envelope. */
  lemma AddressListIsToken(ms: seq<Mailbox>)
    requires WellFormedMailboxes(ms)
    ensures Token(AddressListText(ms))
  {
    if ms == [] {
      AtomIsToken("NIL");
    } else {
      var inners := AddressInners(ms);
      forall k | 0 <= k < |inners| ensures Neutral(2, inners[k]) {
        AddressInnerNeutral(ms[k]);
      }
      NeutralConcatWrapped(1, inners);
      ListIsToken(ConcatWrapped(inners));
    }
  }

  /** A text field that survives an IMAP quoted string: no quote, no backslash, stripped. */
  predicate Literal(w: string) {
    QuotableText(w) && Strip(w) == w
  }

  /** The values a server puts into an ENVELOPE. */
  datatype EnvelopeData = EnvelopeData(
    date: string, subject: string,
    from: seq<Mailbox>, sender: seq<Mailbox>, replyTo: seq<Mailbox>,
    to: seq<Mailbox>, cc: seq<Mailbox>, bcc: seq<Mailbox>,
    inReplyTo: string, messageId: string)

  predicate WellFormedEnvelope(e: EnvelopeData) {
    Literal(e.date) && Literal(e.subject) && Literal(e.inReplyTo) && Literal(e.messageId)
    && WellFormedMailboxes(e.from) && WellFormedMailboxes(e.sender) && WellFormedMailboxes(e.replyTo)
    && WellFormedMailboxes(e.to) && WellFormedMailboxes(e.cc) && WellFormedMailboxes(e.bcc)
  }

  /** The ten fields of an ENVELOPE in the order of section 7.4.2 of RFC 3501. */
  function EnvelopeFields(e: EnvelopeData): seq<string> {
    [NString(e.date), NString(e.subject),
     AddressListText(e.from), AddressListText(e.sender), AddressListText(e.replyTo),
     AddressListText(e.to), AddressListText(e.cc), AddressListText(e.bcc),
     NString(e.inReplyTo), NString(e.messageId)]
  }

  function EnvelopeText(e: EnvelopeData): string {
    "(" + JoinWith(EnvelopeFields(e), " ") + ")"
  }

  /** What parse_envelope is meant to report for an envelope. */
  function ReportedEnvelope(e: EnvelopeData): Envelope {
    Envelope(e.date, e.subject, Reported(e.from), Reported(e.sender), Reported(e.replyTo),
             Reported(e.to), Reported(e.cc), Reported(e.bcc), e.inReplyTo, e.messageId)
  }

  /** Ten tokens, given one by one, are read back by the tokenizer. */
  lemma TenTokensRoundTrip(a0: string, a1: string, a2: string, a3: string, a4: string,
                           a5: string, a6: string, a7: string, a8: string, a9: string)
    requires Token(a0) && Token(a1) && Token(a2) && Token(a3) && Token(a4)
    requires Token(a5) && Token(a6) && Token(a7) && Token(a8) && Token(a9)
    ensures var f := [a0, a1, a2, a3, a4, a5, a6, a7, a8, a9];
            EnvelopeParts("(" + JoinWith(f, " ") + ")") == f
  {
    var f := [a0, a1, a2, a3, a4, a5, a6, a7, a8, a9];
    forall k | 0 <= k < 10 ensures Token(f[k]) {
      if k < 5 {
        assert k == 0 || k == 1 || k == 2 || k == 3 || k == 4;
      } else {
        assert k == 5 || k == 6 || k == 7 || k == 8 || k == 9;
      }
    }
    TokensRoundTrip(f);
  }

  lemma EnvelopeFieldsRoundTrip(e: EnvelopeData)
    requires WellFormedEnvelope(e)
    ensures EnvelopeParts(EnvelopeText(e)) == EnvelopeFields(e)
  {
    NStringIsToken(e.date);
    NStringIsToken(e.subject);
    AddressListIsToken(e.from);
    AddressListIsToken(e.sender);
    AddressListIsToken(e.replyTo);
    AddressListIsToken(e.to);
    AddressListIsToken(e.cc);
    AddressListIsToken(e.bcc);
    NStringIsToken(e.inReplyTo);
    NStringIsToken(e.messageId);
    TenTokensRoundTrip(NString(e.date), NString(e.subject),
                       AddressListText(e.from), AddressListText(e.sender), AddressListText(e.replyTo),
                       AddressListText(e.to), AddressListText(e.cc), AddressListText(e.bcc),
                       NString(e.inReplyTo), NString(e.messageId));
  }

  lemma ParseEnvelopeOfParts(data: string, a0: string, a1: string, a2: string, a3: string, a4: string,
                             a5: string, a6: string, a7: string, a8: string, a9: string)
    requires EnvelopeParts(data) == [a0, a1, a2, a3, a4, a5, a6, a7, a8, a9]
    ensures ParseEnvelope(data) == Some(Envelope(
              DecodeEnvelopeField(a0), DecodeEnvelopeField(a1),
              AddressList(a2), AddressList(a3), AddressList(a4),
              AddressList(a5), AddressList(a6), AddressList(a7),
              DecodeEnvelopeField(a8), DecodeEnvelopeField(a9)))
  {
  }

  /** parse_envelope reads back every well-formed envelope, field by field and in order. */
  lemma EnvelopeRoundTrip(e: EnvelopeData)
    requires WellFormedEnvelope(e)
    ensures ParseEnvelope(EnvelopeText(e)) == Some(ReportedEnvelope(e))
  {
    EnvelopeFieldsRoundTrip(e);
    ParseEnvelopeOfParts(EnvelopeText(e), NString(e.date), NString(e.subject),
                         AddressListText(e.from), AddressListText(e.sender), AddressListText(e.replyTo),
                         AddressListText(e.to), AddressListText(e.cc), AddressListText(e.bcc),
                         NString(e.inReplyTo), NString(e.messageId));
    DecodeNString(e.date);
    DecodeNString(e.subject);
    AddressListRoundTrip(e.from);
    AddressListRoundTrip(e.sender);
    AddressListRoundTrip(e.replyTo);
    AddressListRoundTrip(e.to);
    AddressListRoundTrip(e.cc);
    AddressListRoundTrip(e.bcc);
    DecodeNString(e.inReplyTo);
    DecodeNString(e.messageId);
  }

  // ---------------------------------------------------------------------
  // parse_bodystructure_parameters
  // ---------------------------------------------------------------------

  /** The key of a parameter pair: decoded and lower-cased. */
  function ParamKey(t: string): string {
    Lower(DecodeEnvelopeField(t))
  }

  /** The dictionary built from the tokens taken two at a time, starting from acc;
      a trailing odd token is dropped and a later key overwrites an earlier one. */
  function PairUp(acc: map<string, string>, pp: seq<string>): map<string, string>
    decreases |pp|
  {
    if |pp| < 2 then acc else PairUp(acc[ParamKey(pp[0]) := DecodeEnvelopeField(pp[1])], pp[2..])
  }

  /** The (key, value) pairs in the order they appear. */
  function Pairs(pp: seq<string>): (r: seq<(string, string)>)
    ensures |r| == |pp| / 2
    decreases |pp|
  {
    if |pp| < 2 then [] else [(ParamKey(pp[0]), DecodeEnvelopeField(pp[1]))] + Pairs(pp[2..])
  }

  /** The value of the last pair with key k, if there is one. */
  function LastValue(ps: seq<(string, string)>, k: string): Option<string>
    decreases |ps|
  {
    if ps == [] then None
    else if ps[|ps| - 1].0 == k then Some(ps[|ps| - 1].1)
    else LastValue(ps[..|ps| - 1], k)
  }

  function Lookup(m: map<string, string>, k: string): Option<string> {
    if k in m then Some(m[k]) else None
  }

  lemma {:induction false} LastValueCons(p: (string, string), ps: seq<(string, string)>, k: string)
    ensures LastValue([p] + ps, k)
            == if LastValue(ps, k).Some? then LastValue(ps, k) else if p.0 == k then Some(p.1) else None
    decreases |ps|
  {
    if ps != [] {
      var q := [p] + ps;
      assert q[|q| - 1] == ps[|ps| - 1];
      assert q[..|q| - 1] == [p] + ps[..|ps| - 1];
      LastValueCons(p, ps[..|ps| - 1], k);
    } else {
      assert ([p] + ps)[..0] == [];
    }
  }

  /** Building the dictionary gives each key the value of its last pair; keys that no pair
      names keep what acc had. */
  lemma {:induction false} PairUpLookup(acc: map<string, string>, pp: seq<string>, k: string)
    ensures Lookup(PairUp(acc, pp), k)
            == if LastValue(Pairs(pp), k).Some? then LastValue(Pairs(pp), k) else Lookup(acc, k)
    decreases |pp|
  {
    if |pp| >= 2 {
      var p := (ParamKey(pp[0]), DecodeEnvelopeField(pp[1]));
      PairUpLookup(acc[p.0 := p.1], pp[2..], k);
      LastValueCons(p, Pairs(pp[2..]), k);
    }
  }

  /** parse_bodystructure_parameters as written: the tokens are taken from parse_envelope_parts
      applied to the text between the parentheses, param_str[1:-1]. */
  function BodystructureParameters(p: string): map<string, string> {
    if p == "" || p == "NIL" then map[]
    else if Parenthesised(p) then PairUp(map[], EnvelopeParts(Inner(p)))
    else map[]
  }

  /** One pair taken from position i, or nothing left to pair. */
  lemma PairUpAt(acc: map<string, string>, pp: seq<string>, i: nat)
    requires i <= |pp|
    ensures i + 1 < |pp| ==> PairUp(acc, pp[i..]) == PairUp(acc[ParamKey(pp[i]) := DecodeEnvelopeField(pp[i + 1])], pp[i + 2..])
    ensures i + 1 >= |pp| ==> PairUp(acc, pp[i..]) == acc
  {
    if i + 1 < |pp| {
      assert pp[i..][2..] == pp[i + 2..];
    }
  }

  /** The evidently intended parse: the tokens of the parameter list itself,
      parse_envelope_parts(param_str). */
  function IntendedParameters(p: string): map<string, string> {
    if p == "" || p == "NIL" then map[]
    else if Parenthesised(p) then PairUp(map[], EnvelopeParts(p))
    else map[]
  }

  /** The loop of parse_bodystructure_parameters (message_parser.py:230-245), over the
      tokens of the list itself rather than of param_str[1:-1] (see PairDropped). */
  method ParseBodystructureParameters(p: string) returns (params: map<string, string>)
    ensures params == IntendedParameters(p)
  {
    if p == "" || p == "NIL" {
      return map[];
    }
    params := map[];
    if Parenthesised(p) {
      var pp := ParseEnvelopeParts(p);
      ghost var all := PairUp(map[], pp);
      var i := 0;
      assert pp[0..] == pp;
      while i < |pp|
        invariant 0 <= i
        invariant i <= |pp| ==> PairUp(params, pp[i..]) == all
        invariant i > |pp| ==> params == all
      {
        PairUpAt(params, pp, i);
        if i + 1 < |pp| {
          params := params[ParamKey(pp[i]) := DecodeEnvelopeField(pp[i + 1])];
        }
        i := i + 2;
      }
      if i <= |pp| {
        PairUpAt(params, pp, i);
      }
    }
  }

  /** The parameter lists a server sends, ("CHARSET" "utf-8" ...), never start with a nested
      list, so the text between their parentheses yields no tokens and no parameters. */
  lemma ParametersAsWritten(p: string)
    requires Parenthesised(p) && !Parenthesised(Inner(p))
    ensures BodystructureParameters(p) == map[]
  {
  }

  /** A written parameter list is read back pair by pair, the last pair for a key winning. */
  lemma IntendedParametersRoundTrip(toks: seq<string>, k: string)
    requires forall i :: 0 <= i < |toks| ==> Token(toks[i])
    ensures Lookup(IntendedParameters("(" + JoinWith(toks, " ") + ")"), k) == LastValue(Pairs(toks), k)
  {
    var p := "(" + JoinWith(toks, " ") + ")";
    assert p != "" && p != "NIL" by {
      assert p[0] == '(';
    }
    TokensRoundTrip(toks);
    PairUpLookup(map[], toks, k);
  }

  /** One parameter pair written as two quoted strings, ("KEY" "value"). */
  function PairText(key: string, value: string): string {
    "(" + Quote(key) + " " + Quote(value) + ")"
  }

  lemma PairTokens(key: string, value: string)
    requires QuotableText(key) && QuotableText(value)
    ensures EnvelopeParts(PairText(key, value)) == [Quote(key), Quote(value)]
  {
    var toks := [Quote(key), Quote(value)];
    QuotedIsToken(key);
    QuotedIsToken(value);
    TokensRoundTrip(toks);
    var q1, q2 := Quote(key), Quote(value);
    var j := JoinWith(toks, " ");
    assert j == q1 + " " + q2 by {
      assert toks[1..] == [q2];
    }
    assert PairText(key, value) == "(" + j + ")" by {
      AppendAssoc("(", q1 + " ", q2);
      AppendAssoc("(", q1, " ");
    }
  }

  /** As written, a one-pair list such as ("CHARSET" "utf-8") gives no parameters at all. */
  lemma PairDropped(key: string, value: string)
    ensures BodystructureParameters(PairText(key, value)) == map[]
  {
    var p := PairText(key, value);
    assert p != "NIL" && Parenthesised(p) by {
      assert p[0] == '(' && p[1] == '"';
    }
    assert Inner(p)[0] == '"';
    ParametersAsWritten(p);
  }

  /** As intended, the same list gives the lower-cased key mapped to the value. */
  lemma PairKept(key: string, value: string)
    requires Literal(key) && Literal(value)
    ensures IntendedParameters(PairText(key, value)) == map[Lower(key) := value]
  {
    var p := PairText(key, value);
    var toks := [Quote(key), Quote(value)];
    PairTokens(key, value);
    assert p != "" && p != "NIL" by {
      assert p[1] == '"';
    }
    DecodeQuoted(key);
    DecodeQuoted(value);
    PairUpAt(map[], toks, 0);
    PairUpAt(map[Lower(key) := value], toks, 2);
    assert toks[0..] == toks;
  }

  // ---------------------------------------------------------------------
  // parse_bodystructure_size
  // ---------------------------------------------------------------------

  /** parse_bodystructure_size: int(size_str), or 0 when that raises. */
  function BodystructureSize(s: string): (r: int)
    ensures ParseInt(s).None? ==> r == 0
  {
    match ParseInt(s)
    case Some(n) => n
    case None => 0
  }

  /** A size written as a number is read back. */
  lemma SizeRoundTrip(n: int)
    ensures BodystructureSize(IntToString(n)) == n
  {
    ParseIntRoundTrip(n);
  }

  lemma NilSizeIsZero()
    ensures BodystructureSize("NIL") == 0
  {
    StripOfSpaceless("NIL");
    assert !IsDigit("NIL"[0]);
  }

  // ---------------------------------------------------------------------
  // parse_flags
  // ---------------------------------------------------------------------

  predicate IsSystemFlag(t: string) {
    StartsWith(t, "\\")
  }

  /** The tokens that start with a backslash, in order. */
  function SystemFlags(toks: seq<string>): (r: seq<string>)
    ensures |r| <= |toks|
    ensures forall k :: 0 <= k < |r| ==> IsSystemFlag(r[k])
    decreases |toks|
  {
    if toks == [] then []
    else
      var last := toks[|toks| - 1];
      SystemFlags(toks[..|toks| - 1]) + (if IsSystemFlag(last) then [last] else [])
  }

  /** A token is kept exactly when it is in the input and starts with a backslash. */
  lemma {:induction false} SystemFlagsMembers(toks: seq<string>, t: string)
    ensures t in SystemFlags(toks) <==> t in toks && IsSystemFlag(t)
    decreases |toks|
  {
    if toks != [] {
      var init := toks[..|toks| - 1];
      SystemFlagsMembers(init, t);
      assert toks == init + [toks[|toks| - 1]];
    }
  }

  /** Tokens that are all system flags are kept unchanged. */
  lemma {:induction false} SystemFlagsOfFlags(toks: seq<string>)
    requires forall k :: 0 <= k < |toks| ==> IsSystemFlag(toks[k])
    ensures SystemFlags(toks) == toks
    decreases |toks|
  {
    if toks != [] {
      var init := toks[..|toks| - 1];
      SystemFlagsOfFlags(init);
      assert IsSystemFlag(toks[|toks| - 1]);
      assert init + [toks[|toks| - 1]] == toks;
    }
  }

  /** The text whose whitespace-separated tokens are examined: the inside of a parenthesised
      list, or the whole text. A lone "(" yields no flag either way. */
  function FlagText(data: string): string {
    if Parenthesised(data) then Inner(data) else data
  }

  /** parse_flags: the system flags among the whitespace-separated tokens. */
  function Flags(data: string): (r: seq<string>)
    ensures data == "" ==> r == []
  {
    if data == "" then [] else SystemFlags(SplitWhitespace(FlagText(data)))
  }

  /** The loop of parse_flags (message_parser.py:256-276). */
  method ParseFlags(data: string) returns (flags: seq<string>)
    ensures flags == Flags(data)
  {
    if data == "" {
      return [];
    }
    flags := [];
    var flagParts := SplitWhitespace(FlagText(data));
    var i := 0;
    while i < |flagParts|
      invariant 0 <= i <= |flagParts|
      invariant flags == SystemFlags(flagParts[..i])
    {
      var flag := Strip(flagParts[i]);
      assert flag == flagParts[i] by {
        var t := flagParts[i];
        assert t != [] && NoSpace(t);
        StripOfSpaceless(t);
      }
      if StartsWith(flag, "\\") {
        flags := flags + [flag];
      }
      assert flagParts[..i + 1][..i] == flagParts[..i];
      i := i + 1;
    }
    assert flagParts[..i] == flagParts;
  }

  /** A written flag list yields its system flags, in order. */
  lemma FlagsOfJoin(toks: seq<string>)
    requires forall k :: 0 <= k < |toks| ==> toks[k] != [] && NoSpace(toks[k])
    ensures Flags("(" + JoinWith(toks, " ") + ")") == SystemFlags(toks)
  {
    var j := JoinWith(toks, " ");
    var data := "(" + j + ")";
    assert data != "" && Parenthesised(data) by {
      assert data[0] == '(';
    }
    assert Inner(data) == j;
    assert FlagText(data) == j;
    SplitWhitespaceJoin(toks);
    assert Flags(data) == SystemFlags(SplitWhitespace(j));
  }

  /** A FLAGS list of system flags is read back unchanged. */
  lemma FlagsRoundTrip(fs: seq<string>)
    requires forall k :: 0 <= k < |fs| ==> IsSystemFlag(fs[k]) && NoSpace(fs[k])
    ensures Flags("(" + JoinWith(fs, " ") + ")") == fs
  {
    forall k | 0 <= k < |fs| ensures fs[k] != [] && NoSpace(fs[k]) {
      assert IsSystemFlag(fs[k]);
    }
    FlagsOfJoin(fs);
    SystemFlagsOfFlags(fs);
  }
}
