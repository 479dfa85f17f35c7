/** The string handling the source borrows from the Java library, reduced to
    what the protocol and the configuration files use: `split("\\s+")`,
    `Integer.parseInt`, `Integer.toString`, and the conversions between text
    and bytes (`getBytes`, `new String(bytes)`). */
module Text {
  import opened Common

  /** The characters the regular expression class `\s` matches. */
  predicate IsSpace(c: char) {
    c == ' ' || c == '\t' || c == '\n' || c == '\U{B}' || c == '\U{C}' || c == '\r'
  }

  /** `s` without its leading whitespace. */
  function DropSpaces(s: string): (r: string)
    ensures |r| <= |s| && r == s[|s| - |r|..]
    ensures r == [] || !IsSpace(r[0])
    ensures s != [] && IsSpace(s[0]) ==> |r| < |s|
  {
    if s != [] && IsSpace(s[0]) then DropSpaces(s[1..]) else s
  }

  /** The pieces of `cur + s` between maximal runs of whitespace; a run at the
      very start yields an empty first piece. */
  function Pieces(s: string, cur: string): (r: seq<string>)
    ensures |r| >= 1
    decreases |s|
  {
    if s == [] then [cur]
    else if IsSpace(s[0]) then [cur] + Pieces(DropSpaces(s), "")
    else Pieces(s[1..], cur + [s[0]])
  }

  function DropTrailingEmpty(ps: seq<string>): (r: seq<string>)
    ensures |r| <= |ps| && r == ps[..|r|]
    ensures r == [] || r[|r| - 1] != ""
    ensures forall i :: |r| <= i < |ps| ==> ps[i] == ""
  {
    if ps == [] || ps[|ps| - 1] != "" then ps else DropTrailingEmpty(ps[..|ps| - 1])
  }

  /** `s.split("\\s+")`: the pieces between whitespace runs, trailing empty
      pieces removed; the empty string splits into one empty piece. */
  function Split(s: string): (r: seq<string>)
    ensures s == "" ==> r == [""]
    ensures s != "" && r != [] ==> r[|r| - 1] != ""
  {
    if s == "" then [""] else DropTrailingEmpty(Pieces(s, ""))
  }

  predicate NoSpace(s: string) {
    forall i :: 0 <= i < |s| ==> !IsSpace(s[i])
  }

  lemma {:induction false} PiecesShape(s: string, cur: string)
    requires NoSpace(cur)
    ensures forall i :: 0 <= i < |Pieces(s, cur)| ==> NoSpace(Pieces(s, cur)[i])
    ensures forall i :: 1 <= i < |Pieces(s, cur)| - 1 ==> Pieces(s, cur)[i] != ""
    decreases |s|
  {
    if s == [] {
    } else if IsSpace(s[0]) {
      var rest := DropSpaces(s);
      PiecesShape(rest, "");
      if rest != [] {
        PiecesStartNonEmpty(rest);
      }
    } else {
      PiecesShape(s[1..], cur + [s[0]]);
    }
  }

  /** When the input starts with a non-space character, so does the first
      piece, and there is a last piece after it only if it is non-empty. */
  lemma {:induction false} PiecesStartNonEmpty(s: string)
    requires s != [] && !IsSpace(s[0])
    ensures Pieces(s, "")[0] != ""
  {
    assert [] + [s[0]] == [s[0]];
    PiecesKeepPrefix(s[1..], [s[0]]);
  }

  lemma {:induction false} PiecesKeepPrefix(s: string, cur: string)
    requires cur != []
    ensures |Pieces(s, cur)[0]| >= |cur|
    decreases |s|
  {
    if s != [] && !IsSpace(s[0]) {
      PiecesKeepPrefix(s[1..], cur + [s[0]]);
    }
  }

  /** No token of a split contains whitespace, and only the first token can
      be empty. */
  lemma SplitTokens(s: string)
    ensures forall i :: 0 <= i < |Split(s)| ==> NoSpace(Split(s)[i])
    ensures forall i :: 1 <= i < |Split(s)| ==> Split(s)[i] != ""
  {
    if s != "" {
      PiecesShape(s, "");
    }
  }

  predicate AllSpace(s: string) {
    forall i :: 0 <= i < |s| ==> IsSpace(s[i])
  }

  /** `s` is empty or ends with a character that is not whitespace. */
  predicate EndsInWord(s: string) {
    s == [] || !IsSpace(s[|s| - 1])
  }

  /** Dropping the whitespace in front of a string that ends in a word stops
      inside it. */
  lemma {:induction false} DropSpacesAppend(a: string, r: string)
    requires a != [] && !IsSpace(a[|a| - 1])
    ensures DropSpaces(a + r) == DropSpaces(a) + r
    ensures DropSpaces(a) != [] && EndsInWord(DropSpaces(a))
  {
    if IsSpace(a[0]) {
      assert (a + r)[1..] == a[1..] + r;
      DropSpacesAppend(a[1..], r);
    }
  }

  /** A whitespace run in front of `t` is dropped whole. */
  lemma {:induction false} DropSpacesRun(w: string, t: string)
    requires AllSpace(w) && (t == [] || !IsSpace(t[0]))
    ensures DropSpaces(w + t) == t
  {
    if w != [] {
      assert (w + t)[1..] == w[1..] + t;
      DropSpacesRun(w[1..], t);
    } else {
      assert w + t == t;
    }
  }

  /** A word adds to the piece being built. */
  lemma {:induction false} PiecesWord(b: string, cur: string)
    requires NoSpace(b)
    ensures Pieces(b, cur) == [cur + b]
  {
    if b != [] {
      PiecesWord(b[1..], cur + [b[0]]);
      assert cur + [b[0]] + b[1..] == cur + b;
    } else {
      assert cur + b == cur;
    }
  }

  /** A whitespace run ends the piece being built. */
  lemma PiecesRun(w: string, t: string, cur: string)
    requires w != [] && AllSpace(w) && (t == [] || !IsSpace(t[0]))
    ensures Pieces(w + t, cur) == [cur] + Pieces(t, "")
  {
    assert (w + t)[0] == w[0];
    DropSpacesRun(w, t);
  }

  /** A sequence with one more element in front keeps its last element, and
      its front grows by that element. */
  lemma ConsEnds<T>(x: T, q: seq<T>, y: seq<T>, big: seq<T>, mid: seq<T>, p: seq<T>)
    requires q != [] && p == [x] + q
    requires big == [x] + mid && mid == q[..|q| - 1] + y
    ensures big == p[..|p| - 1] + y && p[|p| - 1] == q[|q| - 1]
  {
    assert p[..|p| - 1] == [x] + q[..|q| - 1];
  }

  /** An element put in front does not change the last element. */
  lemma ConsLast<T>(x: T, q: seq<T>, p: seq<T>)
    requires q != [] && p == [x] + q
    ensures p[|p| - 1] == q[|q| - 1]
  {
  }

  /** Splitting at the end of a string that ends in a word: the pieces of
      the rest continue its last piece. */
  lemma {:induction false} PiecesAppend(a: string, r: string, cur: string)
    requires EndsInWord(a)
    ensures var p := Pieces(a, cur); Pieces(a + r, cur) == p[..|p| - 1] + Pieces(r, p[|p| - 1])
    decreases |a|, 1
  {
    var p := Pieces(a, cur);
    var ar := a + r;
    if a == [] {
      assert ar == r && p == [cur];
      assert p[..|p| - 1] == [];
    } else if !IsSpace(a[0]) {
      assert ar[0] == a[0] && ar[1..] == a[1..] + r;
      assert Pieces(ar, cur) == Pieces(a[1..] + r, cur + [a[0]]);
      assert p == Pieces(a[1..], cur + [a[0]]);
      PiecesAppend(a[1..], r, cur + [a[0]]);
    } else {
      PiecesAppendAfterRun(a, r, cur);
    }
  }

  /** The case of `PiecesAppend` where `a` starts with whitespace. */
  lemma {:induction false} PiecesAppendAfterRun(a: string, r: string, cur: string)
    requires a != [] && IsSpace(a[0]) && EndsInWord(a)
    ensures var p := Pieces(a, cur); Pieces(a + r, cur) == p[..|p| - 1] + Pieces(r, p[|p| - 1])
    decreases |a|, 0
  {
    var d := DropSpaces(a);
    PiecesLeadingRun(a, r, cur);
    PiecesAppend(d, r, "");
    var q := Pieces(d, "");
    ConsEnds(cur, q, Pieces(r, q[|q| - 1]), Pieces(a + r, cur), Pieces(d + r, ""), Pieces(a, cur));
  }

  /** A leading whitespace run ends the first piece, before and after
      appending to a string that ends in a word. */
  lemma PiecesLeadingRun(a: string, r: string, cur: string)
    requires a != [] && IsSpace(a[0]) && EndsInWord(a)
    ensures var d := DropSpaces(a);
      d != [] && EndsInWord(d) && |d| < |a| &&
      Pieces(a, cur) == [cur] + Pieces(d, "") &&
      Pieces(a + r, cur) == [cur] + Pieces(d + r, "")
  {
    assert (a + r)[0] == a[0];
    DropSpacesAppend(a, r);
  }

  /** A string that ends in a word ends in a non-empty piece. */
  lemma {:induction false} PiecesEndInWord(a: string, cur: string)
    requires a != [] && !IsSpace(a[|a| - 1])
    ensures var p := Pieces(a, cur); p[|p| - 1] != ""
    decreases |a|
  {
    if !IsSpace(a[0]) {
      if |a| > 1 {
        PiecesEndInWord(a[1..], cur + [a[0]]);
      } else {
        assert a[1..] == [];
      }
    } else {
      DropSpacesAppend(a, []);
      var d := DropSpaces(a);
      PiecesEndInWord(d, "");
      ConsLast(cur, Pieces(d, ""), Pieces(a, cur));
    }
  }

  /** A single word splits into itself. */
  lemma SplitWord(b: string)
    requires b != "" && NoSpace(b)
    ensures Split(b) == [b]
  {
    PiecesWord(b, "");
    assert "" + b == b;
  }

  /** A line of whitespace only splits into no tokens at all. */
  lemma SplitBlank(w: string)
    requires w != "" && AllSpace(w)
    ensures Split(w) == []
  {
    PiecesRun(w, "", "");
    assert w + "" == w;
  }

  /** Trailing whitespace after a word adds no token. */
  lemma SplitTrailing(a: string, w: string)
    requires a != "" && !IsSpace(a[|a| - 1]) && AllSpace(w)
    ensures Split(a + w) == Split(a)
  {
    if w != "" {
      PiecesAppend(a, w, "");
      var p := Pieces(a, "");
      PiecesRun(w, "", p[|p| - 1]);
      assert w + "" == w;
      assert Pieces(a + w, "") == p + [""];
    } else {
      assert a + w == a;
    }
  }

  /** A whitespace run and a word after a string that ends in a word (or is
      empty) add exactly that word as the next token. */
  lemma SplitAppend(a: string, w: string, b: string)
    requires EndsInWord(a) && w != "" && AllSpace(w) && b != "" && NoSpace(b)
    ensures Split(a + w + b) == Split(a) + [b]
  {
    var p := Pieces(a, "");
    var t := w + b;
    assert Pieces(a + w + b, "") == p + [b] by {
      assert a + w + b == a + t;
      PiecesAppend(a, t, "");
      PiecesRun(w, b, p[|p| - 1]);
      PiecesWord(b, "");
      assert "" + b == b;
      SnocEnds(p, [b]);
    }
    if a != "" {
      PiecesEndInWord(a, "");
    }
  }

  /** A sequence is its front followed by its last element. */
  lemma SnocEnds<T>(p: seq<T>, y: seq<T>)
    requires p != []
    ensures p[..|p| - 1] + ([p[|p| - 1]] + y) == p + y
  {
    assert p[..|p| - 1] + [p[|p| - 1]] == p;
  }

  /** `s` without its trailing whitespace. */
  function TrimEnd(s: string): (r: string)
    ensures |r| <= |s| && r == s[..|r|] && AllSpace(s[|r|..]) && EndsInWord(r)
  {
    if s != [] && IsSpace(s[|s| - 1]) then
      var r := TrimEnd(s[..|s| - 1]);
      assert s[..|s| - 1][..|r|] == s[..|r|];
      assert s[|r|..] == s[..|s| - 1][|r|..] + [s[|s| - 1]];
      r
    else
      s
  }

  /** The longest suffix of `s` without whitespace. */
  function LastWord(s: string): (r: string)
    ensures |r| <= |s| && r == s[|s| - |r|..] && NoSpace(r)
    ensures |r| < |s| ==> IsSpace(s[|s| - |r| - 1])
  {
    if s != [] && !IsSpace(s[|s| - 1]) then
      var p := LastWord(s[..|s| - 1]);
      assert s[|s| - |p| - 1..] == s[..|s| - 1][|s| - 1 - |p|..] + [s[|s| - 1]];
      p + [s[|s| - 1]]
    else
      []
  }

  /** A reference for `split("\\s+")` that works from the end of the line:
      trailing whitespace is dropped, and each word is the token after the
      tokens of what precedes its whitespace run. */
  function Words(s: string): seq<string>
    decreases |s|
  {
    if s == "" then [""]
    else if IsSpace(s[|s| - 1]) then
      var a := TrimEnd(s);
      if a == "" then [] else Words(a)
    else
      var b := LastWord(s);
      var rest := s[..|s| - |b|];
      if rest == "" then [s] else Words(TrimEnd(rest)) + [b]
  }

  /** `Split` is the reference split on every line. */
  lemma {:induction false} SplitIsWords(s: string)
    ensures Split(s) == Words(s)
    decreases |s|
  {
    if s == "" {
    } else if IsSpace(s[|s| - 1]) {
      var a := TrimEnd(s);
      var w := s[|a|..];
      assert s == a + w;
      if a == "" {
        SplitBlank(s);
      } else {
        SplitTrailing(a, w);
        SplitIsWords(a);
      }
    } else {
      var b := LastWord(s);
      var rest := s[..|s| - |b|];
      assert s == rest + b;
      if rest == "" {
        SplitWord(s);
      } else {
        var a := TrimEnd(rest);
        var w := rest[|a|..];
        assert rest == a + w;
        assert IsSpace(rest[|rest| - 1]);
        assert w != "";
        SplitAppend(a, w, b);
        SplitIsWords(a);
      }
    }
  }

  predicate IsDigit(c: char) { '0' <= c <= '9' }

  predicate AllDigits(s: string) { forall i :: 0 <= i < |s| ==> IsDigit(s[i]) }

  function DigitValue(c: char): (d: nat)
    requires IsDigit(c)
    ensures d < 10
  {
    c as int - '0' as int
  }

  function DigitChar(d: nat): (c: char)
    requires d < 10
    ensures IsDigit(c) && DigitValue(c) == d
  {
    (d + '0' as int) as char
  }

  /** The value of a string of decimal digits, most significant first. */
  function DigitsValue(s: string): nat
    requires AllDigits(s)
  {
    if s == [] then 0 else DigitsValue(s[..|s| - 1]) * 10 + DigitValue(s[|s| - 1])
  }

  /** `Integer.parseInt(s)`: an optional sign and at least one decimal digit,
      with a value inside the `int` range; anything else is a
      NumberFormatException, here `None`. */
  function ParseInt(s: string): (r: Option<int>)
    ensures r.Some? ==> IsInt(r.value)
  {
    if s == [] then None
    else if s[0] == '-' || s[0] == '+' then
      var digits := s[1..];
      if digits == [] || !AllDigits(digits) then None
      else
        var v: int := if s[0] == '-' then 0 - DigitsValue(digits) as int else DigitsValue(digits);
        if IsInt(v) then Some(v) else None
    else if !AllDigits(s) then None
    else if IsInt(DigitsValue(s)) then Some(DigitsValue(s))
    else None
  }

  /** The decimal digits of `n` without leading zeros. */
  function NatDigits(n: nat): (s: string)
    ensures s != [] && AllDigits(s)
  {
    if n < 10 then [DigitChar(n)] else NatDigits(n / 10) + [DigitChar(n % 10)]
  }

  /** `Integer.toString(n)`. */
  function IntToString(n: int): (r: string)
    ensures r != [] && (r[0] == '-' <==> n < 0)
    ensures AllDigits(if n < 0 then r[1..] else r)
  {
    if n < 0 then "-" + NatDigits(-n) else NatDigits(n)
  }

  lemma {:induction false} DigitsValueOfNatDigits(n: nat)
    ensures DigitsValue(NatDigits(n)) == n
  {
    if n >= 10 {
      DigitsValueOfNatDigits(n / 10);
      var s := NatDigits(n);
      assert s[..|s| - 1] == NatDigits(n / 10);
    }
  }

  lemma {:induction false} NatDigitsLeading(n: nat)
    ensures NatDigits(n)[0] != '0' || n == 0
  {
    if n >= 10 {
      NatDigitsLeading(n / 10);
    }
  }

  /** `Integer.parseInt` reads back what `Integer.toString` wrote. */
  lemma ParseIntOfIntToString(n: int)
    requires IsInt(n)
    ensures ParseInt(IntToString(n)) == Some(n)
  {
    var s := IntToString(n);
    if n < 0 {
      DigitsValueOfNatDigits(-n);
      assert s[0] == '-' && s[1..] == NatDigits(-n);
      assert ParseInt(s) == Some(0 - DigitsValue(NatDigits(-n)));
    } else {
      DigitsValueOfNatDigits(n);
      assert s == NatDigits(n) && AllDigits(s) && s[0] != '-' && s[0] != '+';
    }
  }

  /** The decimal form `Integer.toString` produces: no `+`, no leading zero,
      no `-0`. */
  predicate CanonicalDecimal(s: string) {
    if s != [] && s[0] == '-' then
      |s| > 1 && AllDigits(s[1..]) && s[1] != '0'
    else
      s != [] && AllDigits(s) && (s[0] != '0' || |s| == 1)
  }

  lemma {:induction false} DigitsValuePositive(s: string)
    requires s != [] && AllDigits(s) && s[0] != '0'
    ensures DigitsValue(s) > 0
  {
    if |s| > 1 {
      DigitsValuePositive(s[..|s| - 1]);
    }
  }

  lemma {:induction false} NatDigitsOfDigitsValue(s: string)
    requires s != [] && AllDigits(s) && (s[0] != '0' || |s| == 1)
    ensures NatDigits(DigitsValue(s)) == s
  {
    if |s| > 1 {
      var p := s[..|s| - 1];
      NatDigitsOfDigitsValue(p);
      DigitsValuePositive(p);
      var v := DigitsValue(s);
      assert v / 10 == DigitsValue(p) && v % 10 == DigitValue(s[|s| - 1]);
      assert s == p + [s[|s| - 1]];
    }
  }

  /** The value `Integer.parseInt` reads from a canonical decimal string. */
  lemma ParseIntCanonical(s: string)
    requires CanonicalDecimal(s) && ParseInt(s).Some?
    ensures s[0] == '-' ==> ParseInt(s).value == 0 - DigitsValue(s[1..]) && DigitsValue(s[1..]) > 0
    ensures s[0] != '-' ==> ParseInt(s).value == DigitsValue(s)
  {
    if s[0] == '-' {
      DigitsValuePositive(s[1..]);
    }
  }

  /** For a canonical decimal string, printing the parsed value gives the
      string back. */
  lemma IntToStringOfParseInt(s: string)
    requires CanonicalDecimal(s) && ParseInt(s).Some?
    ensures IntToString(ParseInt(s).value) == s
  {
    ParseIntCanonical(s);
    if s[0] == '-' {
      var d := s[1..];
      NatDigitsOfDigitsValue(d);
      assert IntToString(0 - DigitsValue(d)) == "-" + d;
      assert s == "-" + d;
    } else {
      NatDigitsOfDigitsValue(s);
    }
  }

  predicate IsAscii(s: string) { forall i :: 0 <= i < |s| ==> s[i] as int < 0x80 }

  /** `s.getBytes()` for an ASCII string: one byte per character. */
  function AsciiBytes(s: string): (b: seq<byte>)
    requires IsAscii(s)
    ensures |b| == |s|
  {
    seq(|s|, i requires 0 <= i < |s| => s[i] as int as byte)
  }

  /** `new String(bytes)`: bytes below 0x80 decode to the character with that
      code; any other byte cannot decode to an ASCII character and stands for
      U+FFFD, the replacement character. */
  function DecodeText(b: seq<byte>): (s: string)
    ensures |s| == |b|
  {
    seq(|b|, i requires 0 <= i < |b| => if b[i] < 0x80 then (b[i] as int) as char else '\U{FFFD}')
  }

  /** The decoded text of `b` is the ASCII string `s` exactly when `b` are the
      bytes of `s`. */
  lemma DecodeTextAscii(b: seq<byte>, s: string)
    requires IsAscii(s)
    ensures DecodeText(b) == s <==> b == AsciiBytes(s)
  {
    if DecodeText(b) == s {
      forall i | 0 <= i < |b| ensures b[i] == AsciiBytes(s)[i] {
        assert DecodeText(b)[i] == s[i];
      }
    }
  }
}
