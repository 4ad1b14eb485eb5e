/** Text forms: fixed-width hexadecimal, the UUID text form of section 4 of RFC 9562, and strings
    divided at slashes. */
module Text {
  import opened Basics

  function Pow16(n: nat): (p: nat)
    ensures p > 0
  {
    if n == 0 then 1 else 16 * Pow16(n - 1)
  }

  function HexDigit(d: nat): char
    requires d < 16
  {
    if d < 10 then '0' + d as char else 'a' + (d - 10) as char
  }

  function HexValue(c: char): Option<nat> {
    if '0' <= c <= '9' then Some((c - '0') as nat)
    else if 'a' <= c <= 'f' then Some((c - 'a') as nat + 10)
    else if 'A' <= c <= 'F' then Some((c - 'A') as nat + 10)
    else None
  }

  /** A number in lower-case hexadecimal, padded with zeros to width `w`. */
  function Hex(n: nat, w: nat): (s: string)
    ensures |s| == w
    decreases w
  {
    if w == 0 then "" else Hex(n / 16, w - 1) + [HexDigit(n % 16)]
  }

  /** The number the digits denote, in either case; `None` when one is no digit. */
  function Digits(s: string): Option<nat> {
    if s == [] then Some(0)
    else
      var high, low := Digits(s[..|s| - 1]), HexValue(s[|s| - 1]);
      if high.None? || low.None? then None else Some(16 * high.value + low.value)
  }

  lemma HexDigitValue(d: nat)
    requires d < 16
    ensures HexValue(HexDigit(d)) == Some(d) && LowerDigit(HexDigit(d)) && HexDigit(d) != '-' && HexDigit(d) != '/'
            && HexDigit(d) != '+' && HexDigit(d) != ':'
  {
  }

  /** A character is worth `d` exactly when it is the `d`-th digit, in either case. */
  lemma ValueIff(c: char, d: nat)
    ensures HexValue(c) == Some(d) <==> d < 16 && (c == "0123456789abcdef"[d] || c == "0123456789ABCDEF"[d])
  {
  }

  /** Text sorts before other text of which it is no prefix: at the first place they differ. */
  ghost predicate SortsBefore(a: string, b: string) {
    exists i :: SortsAt(a, b, i)
  }

  ghost predicate SortsAt(a: string, b: string, i: nat) {
    i < |a| && i < |b| && a[..i] == b[..i] && a[i] < b[i]
  }

  lemma NotAlsoAt(a: string, b: string, i: nat, j: nat)
    requires SortsAt(a, b, i)
    ensures !SortsAt(b, a, j)
  {
    if j < i {
      assert a[j] == a[..i][j] && b[j] == b[..i][j];
    } else if i < j && j < |a| && j < |b| {
      assert a[i] == a[..j][i] && b[i] == b[..j][i];
    }
  }

  lemma SortsOneWay(a: string, b: string)
    ensures SortsBefore(a, b) ==> !SortsBefore(b, a)
  {
    forall i: nat, j: nat | SortsAt(a, b, i) ensures !SortsAt(b, a, j) {
      NotAlsoAt(a, b, i, j);
    }
  }

  lemma SortsWithin(pre: string, a: string, b: string, x: string, y: string, i: nat)
    requires SortsAt(a, b, i)
    ensures SortsBefore(pre + a + x, pre + b + y)
  {
    var s, t, k := pre + a + x, pre + b + y, |pre| + i;
    assert s[..k] == pre + a[..i] && t[..k] == pre + b[..i];
    assert SortsAt(s, t, k);
  }

  lemma SortsLast(pre: string, a: string, b: string, i: nat)
    requires SortsAt(a, b, i)
    ensures SortsBefore(pre + a, pre + b)
  {
    SortsWithin(pre, a, b, [], [], i);
    assert pre + a + [] == pre + a && pre + b + [] == pre + b;
  }

  /** Padded to one width, numbers sort as text the way they do as numbers. */
  lemma {:induction false} HexSorts(n: nat, m: nat, w: nat) returns (i: nat)
    requires n < m < Pow16(w)
    ensures SortsAt(Hex(n, w), Hex(m, w), i)
    decreases w
  {
    var a, b := Hex(n / 16, w - 1), Hex(m / 16, w - 1);
    if n / 16 < m / 16 {
      i := HexSorts(n / 16, m / 16, w - 1);
      assert Hex(n, w)[..i] == a[..i] && Hex(m, w)[..i] == b[..i];
    } else {
      i := w - 1;
      assert Hex(n, w)[..i] == a && Hex(m, w)[..i] == b;
    }
  }

  lemma {:induction false} DigitsOfHex(n: nat, w: nat)
    requires n < Pow16(w)
    ensures Digits(Hex(n, w)) == Some(n)
    decreases w
  {
    if w > 0 {
      DigitsOfHex(n / 16, w - 1);
      HexDigitValue(n % 16);
      assert Hex(n, w)[..w - 1] == Hex(n / 16, w - 1);
    }
  }

  /** Printed hexadecimal has only lower-case digits. */
  lemma {:induction false} HexClean(n: nat, w: nat, i: nat)
    requires i < w
    ensures HexValue(Hex(n, w)[i]).Some? && Hex(n, w)[i] !in "-/+:"
    decreases w
  {
    HexDigitValue(n % 16);
    if i < w - 1 {
      HexClean(n / 16, w - 1, i);
    }
  }

  /** Reading an unsigned integer of `w` hexadecimal digits: at least one digit, an optional plus sign
      before it, and no more than fit. */
  function FromRadix16(s: string, w: nat): Option<nat> {
    var body := if |s| > 1 && s[0] == '+' then s[1..] else s;
    var n := Digits(body);
    if s == [] || n.None? || n.value >= Pow16(w) then None else n
  }

  lemma FromRadixOfHex(n: nat, w: nat)
    requires w > 0 && n < Pow16(w)
    ensures FromRadix16(Hex(n, w), w) == Some(n)
  {
    DigitsOfHex(n, w);
    HexClean(n, w, 0);
  }

  /** Text made of these digits, with a plus sign in front or without. */
  ghost predicate Spells(s: string, d: string) {
    d != [] && (s == d || s == ['+'] + d)
  }

  lemma SpelledIsRead(s: string, d: string, w: nat, n: nat)
    requires Spells(s, d) && Digits(d) == Some(n) && n < Pow16(w)
    ensures FromRadix16(s, w) == Some(n)
  {
    if s == d {
      DigitsHead(d);
    } else {
      PlusSigned(d, n, w);
    }
  }

  /** What is read as `n`: text made of digits that denote it, if it fits the width. */
  lemma RadixIff(s: string, w: nat, n: nat)
    ensures FromRadix16(s, w) == Some(n)
            <==> n < Pow16(w) && exists d :: Spells(s, d) && Digits(d) == Some(n)
  {
    if FromRadix16(s, w) == Some(n) {
      var d := if |s| > 1 && s[0] == '+' then s[1..] else s;
      assert Spells(s, d);
    } else {
      forall d | n < Pow16(w) && Digits(d) == Some(n) ensures !Spells(s, d) {
        if Spells(s, d) {
          SpelledIsRead(s, d, w, n);
        }
      }
    }
  }

  lemma {:induction false} DigitsHead(s: string)
    requires s != [] && Digits(s).Some?
    ensures HexValue(s[0]).Some?
  {
    if |s| > 1 {
      DigitsHead(s[..|s| - 1]);
    }
  }

  predicate LowerDigit(c: char) {
    '0' <= c <= '9' || 'a' <= c <= 'f'
  }

  /** Lower-case hexadecimal digits only. */
  predicate LowerHex(s: string) {
    forall i :: 0 <= i < |s| ==> LowerDigit(s[i])
  }

  lemma LowerDigitPrints(c: char)
    requires LowerDigit(c)
    ensures HexValue(c).Some? && HexValue(c).value < 16 && HexDigit(HexValue(c).value) == c
  {
    var d := HexValue(c).value;
    HexDigitValue(d);
  }

  lemma {:induction false} HexIsLower(n: nat, w: nat)
    ensures LowerHex(Hex(n, w))
    decreases w
  {
    if w > 0 {
      HexIsLower(n / 16, w - 1);
      HexDigitValue(n % 16);
    }
  }

  lemma HexStep(n: nat, d: nat, w: nat, m: nat)
    requires d < 16 && m == 16 * n + d
    ensures Hex(m, w + 1) == Hex(n, w) + [HexDigit(d)]
  {
    assert m / 16 == n && m % 16 == d;
  }

  lemma HexMore(init: string, c: char, n: nat, m: nat)
    requires LowerDigit(c) && Hex(n, |init|) == init && m == 16 * n + HexValue(c).value
    ensures Hex(m, |init| + 1) == init + [c]
  {
    LowerDigitPrints(c);
    HexStep(n, HexValue(c).value, |init|, m);
  }

  lemma DigitsMore(init: string, c: char, n: nat)
    requires Digits(init) == Some(n) && HexValue(c).Some?
    ensures Digits(init + [c]) == Some(16 * n + HexValue(c).value)
  {
    assert (init + [c])[..|init|] == init;
  }

  lemma {:induction false} NumberOf(s: string) returns (n: nat)
    requires LowerHex(s)
    ensures Digits(s) == Some(n) && Hex(n, |s|) == s
  {
    if s == [] {
      n := 0;
    } else {
      var init, last := s[..|s| - 1], s[|s| - 1];
      assert s == init + [last] && LowerDigit(last) && LowerHex(init);
      var high := NumberOf(init);
      n := 16 * high + HexValue(last).value;
      DigitsMore(init, last, high);
      HexMore(init, last, high, n);
    }
  }

  /** Lower-case digits are what the number they denote prints as. */
  lemma HexOfDigits(s: string)
    requires LowerHex(s)
    ensures Digits(s).Some? && Hex(Digits(s).value, |s|) == s
  {
    var n := NumberOf(s);
  }

  /** Reading lower-case digits and printing the number gives the digits back. */
  lemma RadixPrints(s: string)
    requires LowerHex(s) && s != []
    ensures FromRadix16(s, |s|).Some? && Hex(FromRadix16(s, |s|).value, |s|) == s
  {
    HexOfDigits(s);
    DigitsBound(s);
    assert LowerDigit(s[0]);
  }

  /** A plus sign before the digits changes nothing. */
  lemma PlusSigned(digits: string, n: nat, w: nat)
    requires digits != [] && Digits(digits) == Some(n) && n < Pow16(w)
    ensures FromRadix16(['+'] + digits, w) == Some(n) && !LowerHex(['+'] + digits)
  {
    var s := ['+'] + digits;
    assert s[1..] == digits && s[0] == '+';
  }

  /** A UUID, as the 128-bit number its 16 bytes spell. */
  type Uuid = u: nat | u < Pow16(32) witness 0

  function Hyphenated(h: string): (s: string)
    requires |h| == 32
    ensures |s| == 36
  {
    h[..8] + "-" + h[8..12] + "-" + h[12..16] + "-" + h[16..20] + "-" + h[20..]
  }

  function Joined(s: string): (h: string)
    requires |s| == 36
    ensures |h| == 32
  {
    s[..8] + s[9..13] + s[14..18] + s[19..23] + s[24..]
  }

  function UuidText(u: Uuid): (s: string)
    ensures |s| == 36
  {
    Hyphenated(Hex(u, 32))
  }

  function ParseHyphenated(s: string): Option<Uuid>
    requires |s| == 36
  {
    if s[8] == s[13] == s[18] == s[23] == '-' then ParseSimple(Joined(s)) else None
  }

  function ParseSimple(h: string): Option<Uuid>
    requires |h| == 32
  {
    DigitsBound(h);
    Digits(h)
  }

  lemma {:induction false} DigitsBound(s: string)
    ensures Digits(s).Some? ==> Digits(s).value < Pow16(|s|)
  {
    if s != [] {
      DigitsBound(s[..|s| - 1]);
    }
  }

  /** The forms a UUID is read from: bare digits, hyphenated, in braces, or as a URN; in either case. */
  function ParseUuid(s: string): Option<Uuid> {
    if |s| == 32 then ParseSimple(s)
    else if |s| == 36 then ParseHyphenated(s)
    else if |s| == 38 && s[0] == '{' && s[37] == '}' then ParseHyphenated(s[1..37])
    else if |s| == 45 && "urn:uuid:" <= s then ParseHyphenated(s[9..])
    else None
  }

  lemma JoinedHyphenated(h: string)
    requires |h| == 32
    ensures Joined(Hyphenated(h)) == h
    ensures var s := Hyphenated(h); s[8] == s[13] == s[18] == s[23] == '-'
  {
    var s := Hyphenated(h);
    assert s[..8] == h[..8] && s[9..13] == h[8..12] && s[14..18] == h[12..16] && s[19..23] == h[16..20]
           && s[24..] == h[20..];
    assert h == h[..8] + h[8..12] + h[12..16] + h[16..20] + h[20..];
  }

  /** What a UUID prints as is read back as that UUID. */
  lemma UuidRoundTrip(u: Uuid)
    ensures ParseUuid(UuidText(u)) == Some(u)
  {
    JoinedHyphenated(Hex(u, 32));
    DigitsOfHex(u, 32);
  }

  /** Hyphenated lower-case text, as a UUID prints. */
  predicate LowerUuid(s: string) {
    |s| == 36 && s[8] == s[13] == s[18] == s[23] == '-' && LowerHex(Joined(s))
  }

  lemma HyphenatedJoined(s: string)
    requires |s| == 36 && s[8] == s[13] == s[18] == s[23] == '-'
    ensures Hyphenated(Joined(s)) == s
  {
    var h := Joined(s);
    assert h[..8] == s[..8] && h[8..12] == s[9..13] && h[12..16] == s[14..18];
    assert h[16..20] == s[19..23] && h[20..] == s[24..];
    assert s == s[..8] + "-" + s[9..13] + "-" + s[14..18] + "-" + s[19..23] + "-" + s[24..];
  }

  /** Of all the text a UUID is read from, it prints as the hyphenated lower-case form alone. */
  lemma UuidTextIff(s: string)
    requires ParseUuid(s).Some?
    ensures UuidText(ParseUuid(s).value) == s <==> LowerUuid(s)
  {
    var u := ParseUuid(s).value;
    if LowerUuid(s) {
      HexOfDigits(Joined(s));
      HyphenatedJoined(s);
    }
    if UuidText(u) == s {
      JoinedHyphenated(Hex(u, 32));
      HexIsLower(u, 32);
    }
  }

  /** The text forms of 32 digits. */
  ghost predicate IsForm(s: string, h: string) {
    |h| == 32 && (s == h || s == Hyphenated(h) || s == "{" + Hyphenated(h) + "}" || s == "urn:uuid:" + Hyphenated(h))
  }

  lemma WrappedForms(t: string)
    requires |t| == 36
    ensures var b, u := "{" + t + "}", "urn:uuid:" + t;
            && |b| == 38 && b[0] == '{' && b[37] == '}' && b[1..37] == t
            && |u| == 45 && "urn:uuid:" <= u && u[9..] == t
  {
  }

  lemma UnwrappedForms(s: string)
    ensures |s| == 38 && s[0] == '{' && s[37] == '}' ==> s == "{" + s[1..37] + "}"
    ensures |s| == 45 && "urn:uuid:" <= s ==> s == "urn:uuid:" + s[9..]
  {
    if |s| == 45 && "urn:uuid:" <= s {
      assert s[..9] == "urn:uuid:" && s == s[..9] + s[9..];
    }
  }

  lemma FormIsRead(s: string, h: string)
    requires IsForm(s, h)
    ensures ParseUuid(s) == Digits(h)
  {
    JoinedHyphenated(h);
    WrappedForms(Hyphenated(h));
  }

  lemma ReadIsForm(s: string) returns (h: string)
    requires ParseUuid(s).Some?
    ensures IsForm(s, h) && Digits(h) == ParseUuid(s)
  {
    UnwrappedForms(s);
    if |s| == 32 {
      h := s;
    } else {
      var t := if |s| == 36 then s else if |s| == 38 then s[1..37] else s[9..];
      h := Joined(t);
      HyphenatedJoined(t);
    }
  }

  /** A UUID is read from exactly four forms of its 32 digits: bare, hyphenated, in braces, or as a URN. */
  lemma ReadIff(s: string, u: Uuid)
    ensures ParseUuid(s) == Some(u) <==> exists h :: IsForm(s, h) && Digits(h) == Some(u)
  {
    if ParseUuid(s) == Some(u) {
      var h := ReadIsForm(s);
    }
    forall h | IsForm(s, h) ensures ParseUuid(s) == Digits(h) {
      FormIsRead(s, h);
    }
  }

  lemma HyphenatedFrom(h: string, i: nat)
    requires |h| == 32 && i < 36
    ensures Hyphenated(h)[i] == '-' || exists j :: 0 <= j < 32 && Hyphenated(h)[i] == h[j]
  {
  }

  /** The printed form holds no slash, plus sign or colon. */
  lemma UuidClean(u: Uuid, i: nat)
    requires i < 36
    ensures UuidText(u)[i] !in "/+:"
  {
    HyphenatedFrom(Hex(u, 32), i);
    if UuidText(u)[i] != '-' {
      var j :| 0 <= j < 32 && UuidText(u)[i] == Hex(u, 32)[j];
      HexClean(u, 32, j);
    }
  }

  /** The text before and after the first slash. */
  function SplitOnce(s: string): (r: Option<(string, string)>)
    ensures r.Some? ==> |r.value.1| < |s|
  {
    if s == [] then None
    else if s[0] == '/' then Some(([], s[1..]))
    else
      var rest := SplitOnce(s[1..]);
      if rest.None? then None else Some(([s[0]] + rest.value.0, rest.value.1))
  }

  ghost predicate SlashFree(s: string) {
    '/' !in s
  }

  lemma {:induction false} DigitsSlashFree(s: string)
    requires Digits(s).Some?
    ensures SlashFree(s)
  {
    if s != [] {
      DigitsSlashFree(s[..|s| - 1]);
      assert s == s[..|s| - 1] + [s[|s| - 1]];
    }
  }

  /** No text of a UUID holds a slash. */
  lemma UuidSlashFree(s: string)
    requires ParseUuid(s).Some?
    ensures SlashFree(s)
  {
    var h := ReadIsForm(s);
    DigitsSlashFree(h);
    assert SlashFree(Hyphenated(h)) && SlashFree("{") && SlashFree("}") && SlashFree("urn:uuid:");
  }

  lemma {:induction false} SplitAt(a: string, b: string)
    requires SlashFree(a)
    ensures SplitOnce(a + ['/'] + b) == Some((a, b))
  {
    var s := a + ['/'] + b;
    if a == [] {
      assert s[1..] == b;
    } else {
      SplitAt(a[1..], b);
      assert s[1..] == a[1..] + ['/'] + b;
      assert [a[0]] + a[1..] == a;
    }
  }

  lemma {:induction false} SplitMeans(s: string)
    ensures SplitOnce(s).None? <==> SlashFree(s)
    ensures SplitOnce(s).Some? ==>
            SlashFree(SplitOnce(s).value.0) && s == SplitOnce(s).value.0 + ['/'] + SplitOnce(s).value.1
  {
    if s != [] && s[0] != '/' {
      SplitMeans(s[1..]);
      assert s == [s[0]] + s[1..];
    }
  }

  /** All the stretches between slashes; at least one. */
  function Split(s: string): (segments: seq<string>)
    ensures segments != []
    decreases |s|
  {
    var parts := SplitOnce(s);
    if parts.None? then [s] else [parts.value.0] + Split(parts.value.1)
  }

  lemma {:induction false} SplitSegments(s: string)
    ensures forall i :: 0 <= i < |Split(s)| ==> SlashFree(Split(s)[i])
    decreases |s|
  {
    SplitMeans(s);
    if SplitOnce(s).Some? {
      SplitSegments(SplitOnce(s).value.1);
    }
  }

  lemma SplitOne(a: string)
    requires SlashFree(a)
    ensures Split(a) == [a]
  {
    SplitMeans(a);
  }

  lemma SplitFirst(a: string, rest: string)
    requires SlashFree(a)
    ensures Split(a + "/" + rest) == [a] + Split(rest)
  {
    SplitAt(a, rest);
  }
}
