/** The want-to-buy entries the route solvers order. An entry carries its booth code,
    the priority cell of its spreadsheet row, and the `isStart` flag that marks the
    current location in the node lists of the webapp. Other row fields pass
    through unchanged and are carried as `info`. */
module Booths {
  import opened SpaceCode

  /** A priority cell: absent, a string, or a number. */
  datatype Priority = NoPriority | Text(s: string) | Number(n: int)

  datatype Booth = Booth(space: string, priority: Priority, isStart: bool, info: string)

  /** The priority strings the webapp treats as high (after upper-casing). */
  const HighLabels: seq<string> := ["S", "A", "5", "4", "HIGH", "高"]

  /** `toUpperCase` on one character, for the characters whose upper case is a
      single ASCII letter: a-z, and the long s (U+017F) and dotless i (U+0131),
      which upper-case to "S" and "I". Every other character is treated as its
      own upper case. */
  function UpperChar(c: char): (u: char)
    ensures 'a' <= c <= 'z' ==> u as int == c as int - 32
    ensures c == 'ſ' ==> u == 'S'
    ensures c == 'ı' ==> u == 'I'
    ensures !('a' <= c <= 'z') && c != 'ſ' && c != 'ı' ==> u == c
  {
    if 'a' <= c <= 'z' then (c as int - 32) as char
    else if c == 'ſ' then 'S'
    else if c == 'ı' then 'I'
    else c
  }

  function Upper(s: string): (u: string)
    ensures |u| == |s| && forall i :: 0 <= i < |s| ==> u[i] == UpperChar(s[i])
  {
    if s == [] then [] else [UpperChar(s[0])] + Upper(s[1..])
  }

  /** `String(n)` for an integer. */
  function NumberText(n: int): string
  {
    if n < 0 then "-" + Digits(-n) else Digits(n)
  }


  /** `isHighPriority(p)`: false for a falsy cell (absent, "", 0), otherwise whether
      the upper-cased `String(p)` is one of the high labels. */
  predicate IsHighPriority(p: Priority)
  {
    match p
    case NoPriority => false
    case Text(s) => s != "" && Upper(s) in HighLabels
    case Number(n) => n != 0 && NumberText(n) in HighLabels
  }

  /** A numeric cell is high exactly for 4 and 5. */
  lemma NumberPriority(n: int)
    ensures IsHighPriority(Number(n)) <==> n == 4 || n == 5
  {
    if n >= 10 {
      assert |Digits(n)| >= 2 && Digits(n)[0] != 'H';
    } else if n < 0 {
      assert NumberText(n)[0] == '-';
    } else {
      assert Digits(n) == [(n + '0' as int) as char];
    }
  }

  /** Upper-casing makes the text test case-insensitive: "high", "High" and "s"
      are high, "b" and "" are not. */
  lemma TextPriorityExamples()
    ensures IsHighPriority(Text("high")) && IsHighPriority(Text("High")) && IsHighPriority(Text("s"))
    ensures IsHighPriority(Text("高")) && IsHighPriority(Text("5"))
    ensures !IsHighPriority(Text("b")) && !IsHighPriority(Text("")) && !IsHighPriority(NoPriority)
  {
    assert Upper("high") == "HIGH";
    assert Upper("High") == "HIGH";
    assert Upper("s") == "S";
    assert Upper("高") == "高";
    assert Upper("5") == "5";
    assert Upper("b") == "B";
  }
}
