/** The pieces every location-code parser of the system shares: a booth code such
    as "東ア01a" is a hall character, a label character, and a remainder whose
    full-width characters are first shifted to half width and whose leading ASCII
    digits give the seat number. The hall group is looked up in an ordered zone
    table: the first zone whose name starts with the hall character and whose label
    list contains the label character. */
module SpaceCode {

  import opened JsValues

  /** A zone: its display name (e.g. "東456") and its label alphabet. */
  type Zone = (string, seq<char>)
  /** Zones in the order the source's table lists them; the order decides ties. */
  type ZoneTable = seq<Zone>

  /** The label slot `space[1]`: a character, the empty string that the empty-code
      branches return, or `undefined` for a one-character code. */
  datatype Label = Ch(c: char) | EmptyLabel | Undefined

  const FullWidthFirst: char := '\U{FF01}'  // "！"
  const FullWidthLast: char := '\U{FF5E}'   // "～"
  const FullWidthOffset: int := 0xFEE0

  function HalfWidthChar(c: char): char
  {
    if FullWidthFirst <= c <= FullWidthLast then (c as int - FullWidthOffset) as char else c
  }

  /** `toHalfWidth`: the regular-expression replace over U+FF01..U+FF5E. */
  function ToHalfWidth(s: string): (r: string)
    ensures |r| == |s|
    ensures forall i :: 0 <= i < |s| ==>
      r[i] == if FullWidthFirst <= s[i] <= FullWidthLast then (s[i] as int - 0xFEE0) as char else s[i]
  {
    if s == [] then [] else [HalfWidthChar(s[0])] + ToHalfWidth(s[1..])
  }

  lemma {:induction false} ToHalfWidthKeepsAscii(s: string)
    requires forall i :: 0 <= i < |s| ==> s[i] < '\U{FF01}'
    ensures ToHalfWidth(s) == s
  {
    if s != [] {
      ToHalfWidthKeepsAscii(s[1..]);
    }
  }

  predicate IsAsciiDigit(c: char)
  {
    '0' <= c <= '9'
  }

  predicate AllDigits(s: string)
  {
    forall i :: 0 <= i < |s| ==> IsAsciiDigit(s[i])
  }

  /** The label slot of a non-empty code. */
  function LabelAt(space: string): (l: Label)
    requires space != ""
    ensures l.Ch? <==> |space| >= 2
    ensures l.Undefined? <==> |space| == 1
    ensures l.Ch? ==> l.c == space[1]
  {
    if |space| >= 2 then Ch(space[1]) else Undefined
  }

  /** `space.substring(2)`. */
  function Remainder(space: string): (r: string)
    ensures |space| >= 2 ==> r == space[2..]
    ensures |space| < 2 ==> r == ""
  {
    if |space| >= 2 then space[2..] else ""
  }

  /** `label.charCodeAt(0)`: the code of a character, NaN for the empty string, and a
      TypeError for `undefined`. */
  function CharCode(l: Label): (r: Eval<Num>)
    ensures r.TypeError? <==> l.Undefined?
    ensures r == Value(NaN) <==> l.EmptyLabel?
    ensures l.Ch? ==> r == Value(Num(l.c as int))
  {
    match l
    case Ch(c) => Value(Num(c as int))
    case EmptyLabel => Value(NaN)
    case Undefined => TypeError
  }

  /** `key.startsWith(ewsnChar) && labels.includes(labelChar)`. */
  predicate ZoneMatches(z: Zone, h: char, l: Label)
  {
    |z.0| > 0 && z.0[0] == h && l.Ch? && l.c in z.1
  }

  /** Index of the first zone that matches, or -1. */
  function FirstMatch(table: ZoneTable, h: char, l: Label): (k: int)
    ensures -1 <= k < |table|
    ensures k >= 0 ==> ZoneMatches(table[k], h, l)
    ensures k >= 0 ==> forall j :: 0 <= j < k ==> !ZoneMatches(table[j], h, l)
    ensures k == -1 <==> forall j :: 0 <= j < |table| ==> !ZoneMatches(table[j], h, l)
  {
    if table == [] then -1
    else if ZoneMatches(table[0], h, l) then 0
    else
      var r := FirstMatch(table[1..], h, l);
      if r < 0 then -1 else r + 1
  }

  /** The hall-group key: the first matching zone's name, or "" when none matches. */
  function HallGroup(table: ZoneTable, h: char, l: Label): string
  {
    var k := FirstMatch(table, h, l);
    if k < 0 then "" else table[k].0
  }

  /** `ds` is the longest prefix of `s` made of ASCII digits. */
  predicate MaximalDigitPrefix(s: string, ds: string)
  {
    AllDigits(ds) && |ds| <= |s| && ds == s[..|ds|] && (|ds| < |s| ==> !IsAsciiDigit(s[|ds|]))
  }

  /** The digit-collecting loop: the longest prefix made of ASCII digits. */
  function LeadingDigits(s: string): (r: string)
    ensures MaximalDigitPrefix(s, r)
  {
    if s == [] || !IsAsciiDigit(s[0]) then [] else [s[0]] + LeadingDigits(s[1..])
  }

  /** Decimal value of a digit string (`parseInt`/`parseFloat` on it); 0 for "". */
  function DigitsValue(ds: string): nat
    requires AllDigits(ds)
  {
    if ds == [] then 0 else DigitsValue(ds[..|ds| - 1]) * 10 + (ds[|ds| - 1] as int - '0' as int)
  }

  /** Decimal digits of a natural number, most significant first ("0" for 0). */
  function Digits(n: nat): (ds: string)
    ensures |ds| > 0 && AllDigits(ds)
  {
    var d := (n % 10 + '0' as int) as char;
    if n < 10 then [d] else Digits(n / 10) + [d]
  }

  lemma {:induction false} DigitsRoundTrip(n: nat)
    ensures DigitsValue(Digits(n)) == n
  {
    var ds := Digits(n);
    if n >= 10 {
      DigitsRoundTrip(n / 10);
      assert ds[..|ds| - 1] == Digits(n / 10);
    }
  }

  /** Leading zeros, as in "東ア01a", do not change the value. */
  lemma {:induction false} LeadingZeroValue(z: nat, ds: string)
    requires AllDigits(ds)
    ensures AllDigits(Zeros(z) + ds) && DigitsValue(Zeros(z) + ds) == DigitsValue(ds)
  {
    if ds == [] {
      ZerosValue(z);
      assert Zeros(z) + ds == Zeros(z);
    } else {
      var init := ds[..|ds| - 1];
      LeadingZeroValue(z, init);
      assert (Zeros(z) + ds)[..|Zeros(z) + ds| - 1] == Zeros(z) + init;
    }
  }

  function Zeros(z: nat): (s: string)
    ensures |s| == z && AllDigits(s)
  {
    if z == 0 then [] else Zeros(z - 1) + ['0']
  }

  lemma {:induction false} ZerosValue(z: nat)
    ensures DigitsValue(Zeros(z)) == 0
  {
    if z > 0 {
      ZerosValue(z - 1);
      assert Zeros(z)[..z - 1] == Zeros(z - 1);
    }
  }

  /** A digit run followed by a remainder that does not start with a digit is
      exactly what the digit loop collects. */
  lemma {:induction false} LeadingDigitsOfRun(ds: string, rest: string)
    requires AllDigits(ds)
    requires rest == [] || !IsAsciiDigit(rest[0])
    ensures LeadingDigits(ds + rest) == ds
  {
    if ds != [] {
      assert (ds + rest)[1..] == ds[1..] + rest;
      LeadingDigitsOfRun(ds[1..], rest);
    } else {
      assert ds + rest == rest;
    }
  }

  /** The fold-over of the island layout: seats beyond 32 mirror to 64 - seat,
      so every seat of an island (0..64) lands in its first half. */
  function FoldSeat(n: int): (f: int)
    ensures n <= 32 ==> f == n
    ensures 0 <= n <= 64 ==> 0 <= f <= 32
  {
    if n > 32 then 64 - n else n
  }

  /** Seats s and 64 - s face each other across the island and fold alike. */
  lemma FoldMirror(n: int)
    requires 0 <= n <= 64
    ensures FoldSeat(64 - n) == FoldSeat(n)
  {
  }
}
