/** The text side of the spreadsheet backend (webapp/apps_script_code.js:1-56):
    the full-width normaliser and the edit-time extractor that cleans a typed
    booth code. The web handlers of the same file are in `SheetHandlers`. */
module AppsScript {
  import opened JsValues
  import Ledger

  // ---------------------------------------------------------------------------
  // convertCharacters
  // ---------------------------------------------------------------------------

  /** `/[Ａ-Ｚａ-ｚ０-９]/`: a full-width letter or digit. */
  predicate IsFullWidthAlnum(c: char)
  {
    '\U{FF21}' <= c <= '\U{FF3A}' || '\U{FF41}' <= c <= '\U{FF5A}' || '\U{FF10}' <= c <= '\U{FF19}'
  }

  const IdeographicSpace: char := '\U{3000}'  // "　"
  const FullWidthStop: char := '\U{FF0E}'     // "．"

  /** What `convertCharacters` makes of one character: a full-width letter or
      digit moves down by 65248 to its ASCII form, then the ideographic space
      becomes " " and the full-width full stop ".". */
  function ConvertChar(c: char): (d: char)
    ensures IsFullWidthAlnum(c) ==> d as int == c as int - 65248
    ensures !IsFullWidthAlnum(c) && c != IdeographicSpace && c != FullWidthStop ==> d == c
  {
    if IsFullWidthAlnum(c) then (c as int - 65248) as char
    else if c == IdeographicSpace then ' '
    else if c == FullWidthStop then '.'
    else c
  }

  /** The text `convertCharacters` returns. */
  function Converted(s: string): (r: string)
    ensures |r| == |s| && forall i :: 0 <= i < |s| ==> r[i] == ConvertChar(s[i])
  {
    seq(|s|, i requires 0 <= i < |s| => ConvertChar(s[i]))
  }

  /** `s.replace(/x/g, y)` for single characters. */
  function ReplaceChar(s: string, x: char, y: char): (r: string)
    ensures |r| == |s| && forall i :: 0 <= i < |s| ==> r[i] == if s[i] == x then y else s[i]
  {
    seq(|s|, i requires 0 <= i < |s| => if s[i] == x then y else s[i])
  }

  /** `convertCharacters(original)`: the shifting loop, then the two replaces. */
  method ConvertCharacters(original: string) returns (converted: string)
    ensures converted == Converted(original)
  {
    converted := "";
    var i := 0;
    while i < |original|
      invariant 0 <= i <= |original| && |converted| == i
      invariant forall j :: 0 <= j < i ==>
        converted[j] == if IsFullWidthAlnum(original[j]) then (original[j] as int - 65248) as char else original[j]
    {
      if IsFullWidthAlnum(original[i]) {
        var half := (original[i] as int - 65248) as char;
        converted := converted + [half];
      } else {
        converted := converted + [original[i]];
      }
      i := i + 1;
    }
    converted := ReplaceChar(ReplaceChar(converted, IdeographicSpace, ' '), FullWidthStop, '.');
  }

  /** The result has no full-width letter, digit, space or full stop left. */
  lemma ConvertedIsNormal(s: string)
    ensures forall i :: 0 <= i < |s| ==>
      !IsFullWidthAlnum(Converted(s)[i]) && Converted(s)[i] != IdeographicSpace && Converted(s)[i] != FullWidthStop
  {
  }

  /** Converting twice is converting once. */
  lemma ConvertedIdempotent(s: string)
    ensures Converted(Converted(s)) == Converted(s)
  {
    ConvertedIsNormal(s);
  }

  /** A sample: "東Ａ０１ａ" becomes "東A01a". */
  lemma ConvertedExample()
    ensures Converted("東Ａ０１ａ") == "東A01a"
  {
  }

  // ---------------------------------------------------------------------------
  // The extractor of autoUpdateDate
  // ---------------------------------------------------------------------------

  /** A hall character: 東, 西, 南 or 北. */
  predicate IsHall(c: char)
  {
    c == '東' || c == '西' || c == '南' || c == '北'
  }

  /** `/[A-Za-zあ-んア-ンａ-ｚＡ-Ｚ]/`: a label character. */
  predicate IsLabelChar(c: char)
  {
    'A' <= c <= 'Z' || 'a' <= c <= 'z' || 'あ' <= c <= 'ん' || 'ア' <= c <= 'ン' ||
    '\U{FF41}' <= c <= '\U{FF5A}' || '\U{FF21}' <= c <= '\U{FF3A}'
  }

  /** What the extractor keeps of `s`, before it has seen a hall character:
      everything up to the first hall character goes, that character stays. */
  function BeforeHall(s: string): string
  {
    if s == [] then []
    else if IsHall(s[0]) then [s[0]] + BeforeLabel(s[1..])
    else BeforeHall(s[1..])
  }

  /** ... after the hall character: the next label character stays, anything
      before it goes. */
  function BeforeLabel(s: string): string
  {
    if s == [] then []
    else if IsLabelChar(s[0]) then [s[0]] + AfterLabel(s[1..])
    else BeforeLabel(s[1..])
  }

  /** ... after the label: ASCII digits, "a" and "b" stay, and the first "b" ends
      the code. */
  function AfterLabel(s: string): string
  {
    if s == [] then []
    else if s[0] == 'b' then "b"
    else Kept(s[0]) + AfterLabel(s[1..])
  }

  predicate IsAsciiDigit(c: char)
  {
    '0' <= c <= '9'
  }

  /** What the extractor still keeps of `s` in the state the two flags describe. */
  function Rest(tf1: bool, tf2: bool, s: string): string
  {
    if !tf1 then BeforeHall(s) else if !tf2 then BeforeLabel(s) else AfterLabel(s)
  }

  /** What the phase after the label keeps of a character other than "b". */
  function Kept(c: char): string
  {
    if IsAsciiDigit(c) || c == 'a' then [c] else []
  }

  /** One character of the loop, in each state of the flags. */
  lemma RestStep(tf1: bool, tf2: bool, c: char, rest: string)
    requires tf2 ==> tf1
    ensures !tf1 && IsHall(c) ==> Rest(tf1, tf2, [c] + rest) == [c] + Rest(true, tf2, rest)
    ensures tf1 && !tf2 && IsLabelChar(c) ==> Rest(tf1, tf2, [c] + rest) == [c] + Rest(tf1, true, rest)
    ensures tf2 && c == 'b' ==> Rest(tf1, tf2, [c] + rest) == [c]
    ensures tf2 && c != 'b' ==> Rest(tf1, tf2, [c] + rest) == Kept(c) + Rest(tf1, tf2, rest)
    ensures !tf2 && !(!tf1 && IsHall(c)) && !(tf1 && IsLabelChar(c)) ==> Rest(tf1, tf2, [c] + rest) == Rest(tf1, tf2, rest)
  {
    assert ([c] + rest)[0] == c && ([c] + rest)[1..] == rest;
  }

  lemma Assoc(a: string, b: string, c: string)
    ensures a + (b + c) == (a + b) + c
  {
  }

  /** The flag-driven loop of `autoUpdateDate`: `tf1` says a hall character was
      kept, `tf2` that a label was kept. */
  method Extract(val: string) returns (ans: string)
    ensures ans == BeforeHall(val)
  {
    ans := "";
    var tf1, tf2 := false, false;
    var i := 0;
    while i < |val|
      invariant 0 <= i <= |val| && (tf2 ==> tf1)
      invariant ans + Rest(tf1, tf2, val[i..]) == BeforeHall(val)
    {
      var c := val[i];
      ghost var rest := val[i + 1..];
      assert val[i..] == [c] + rest;
      RestStep(tf1, tf2, c, rest);
      ghost var before := ans;
      if !tf1 && IsHall(c) {
        ghost var x := Rest(true, tf2, rest);
        assert BeforeHall(val) == before + ([c] + x);
        ans := ans + [c];
        tf1 := true;
        i := i + 1;
        assert val[i..] == rest;
        Assoc(before, [c], x);
        continue;
      }
      if tf1 && !tf2 && IsLabelChar(c) {
        ghost var x := Rest(tf1, true, rest);
        assert BeforeHall(val) == before + ([c] + x);
        ans := ans + [c];
        tf2 := true;
        i := i + 1;
        assert val[i..] == rest;
        Assoc(before, [c], x);
        continue;
      }
      if tf2 {
        ghost var x := Rest(tf1, tf2, rest);
        assert c != 'b' ==> BeforeHall(val) == before + (Kept(c) + x);
        if IsAsciiDigit(c) {
          ans := ans + [c];
        }
        if c == 'a' || c == 'b' {
          ans := ans + [c];
          if c == 'b' {
            assert BeforeHall(val) == before + [c];
            break;
          }
        }
        assert ans == before + Kept(c);
        Assoc(before, Kept(c), x);
      } else {
        assert Rest(tf1, tf2, [c] + rest) == Rest(tf1, tf2, rest);
      }
      i := i + 1;
      assert val[i..] == rest;
    }
    assert i == |val| ==> Rest(tf1, tf2, val[i..]) == [];
  }

  /** The kept characters are characters of the input, in their order. */
  lemma {:induction false} BeforeHallSubsequence(s: string)
    ensures Ledger.IsSubsequence(BeforeHall(s), s)
  {
    if s != [] {
      if IsHall(s[0]) {
        BeforeLabelSubsequence(s[1..]);
      } else {
        BeforeHallSubsequence(s[1..]);
      }
    }
  }

  lemma {:induction false} BeforeLabelSubsequence(s: string)
    ensures Ledger.IsSubsequence(BeforeLabel(s), s)
  {
    if s != [] {
      if IsLabelChar(s[0]) {
        AfterLabelSubsequence(s[1..]);
      } else {
        BeforeLabelSubsequence(s[1..]);
      }
    }
  }

  lemma {:induction false} AfterLabelSubsequence(s: string)
    ensures Ledger.IsSubsequence(AfterLabel(s), s)
  {
    if s != [] {
      if s[0] == 'b' {
        EmptySubsequence(s[1..]);
      } else {
        AfterLabelSubsequence(s[1..]);
        if IsAsciiDigit(s[0]) || s[0] == 'a' {
          assert AfterLabel(s)[0] == s[0] && AfterLabel(s)[1..] == AfterLabel(s[1..]);
        } else {
          assert AfterLabel(s) == AfterLabel(s[1..]);
        }
      }
    }
  }

  lemma {:induction false} EmptySubsequence(s: string)
    ensures Ledger.IsSubsequence([], s)
  {
    if s != [] {
      EmptySubsequence(s[1..]);
    }
  }

  /** The shape of an extracted code: a hall character, then a label character,
      then digits and "a"s, possibly closed by a single "b". */
  predicate IsCodeShape(ans: string)
  {
    (|ans| > 0 ==> IsHall(ans[0])) &&
    (|ans| > 1 ==> IsLabelChar(ans[1])) &&
    (forall i :: 2 <= i < |ans| ==> IsAsciiDigit(ans[i]) || ans[i] == 'a' || (ans[i] == 'b' && i == |ans| - 1))
  }

  lemma {:induction false} BeforeHallShape(s: string)
    ensures IsCodeShape(BeforeHall(s))
  {
    if s != [] {
      if IsHall(s[0]) {
        BeforeLabelShape(s[1..]);
      } else {
        BeforeHallShape(s[1..]);
      }
    }
  }

  lemma {:induction false} BeforeLabelShape(s: string)
    ensures |BeforeLabel(s)| > 0 ==> IsLabelChar(BeforeLabel(s)[0])
    ensures forall i :: 1 <= i < |BeforeLabel(s)| ==>
      IsAsciiDigit(BeforeLabel(s)[i]) || BeforeLabel(s)[i] == 'a' || (BeforeLabel(s)[i] == 'b' && i == |BeforeLabel(s)| - 1)
  {
    if s != [] {
      if IsLabelChar(s[0]) {
        AfterLabelShape(s[1..]);
      } else {
        BeforeLabelShape(s[1..]);
      }
    }
  }

  lemma {:induction false} AfterLabelShape(s: string)
    ensures forall i :: 0 <= i < |AfterLabel(s)| ==>
      IsAsciiDigit(AfterLabel(s)[i]) || AfterLabel(s)[i] == 'a' || (AfterLabel(s)[i] == 'b' && i == |AfterLabel(s)| - 1)
  {
    if s != [] && s[0] != 'b' {
      AfterLabelShape(s[1..]);
    }
  }

  /** Extraction examples: free text around a code, and a code with a second
      "b" after the first. */
  lemma ExtractExamples()
    ensures BeforeHall("於東ア01a") == "東ア01a"
    ensures BeforeHall("西あ1b2") == "西あ1b"
  {
    assert AfterLabel("01a") == "01a" by {
      assert AfterLabel("a") == "a";
      assert AfterLabel("1a") == "1a";
    }
    assert BeforeHall("於東ア01a") == BeforeHall("東ア01a") == "東" + BeforeLabel("ア01a");
    assert BeforeLabel("ア01a") == "ア" + AfterLabel("01a");
    assert AfterLabel("1b2") == "1b" by {
      assert AfterLabel("b2") == "b";
    }
    assert BeforeHall("西あ1b2") == "西" + BeforeLabel("あ1b2");
    assert BeforeLabel("あ1b2") == "あ" + AfterLabel("1b2");
  }

  /** `autoUpdateDate()` on an edit of row `row`, column `column` whose new value
      is `val`: only column D (4) is rewritten, with the extracted code after
      `convertCharacters`. */
  method AutoUpdateDate(row: int, column: int, val: string) returns (written: Option<string>)
    ensures row >= 1 && column == 4 ==> written == Some(Converted(BeforeHall(val)))
    ensures !(row >= 1 && column == 4) ==> written == None
  {
    written := None;
    if row >= 1 && column == 4 {
      var ans := Extract(val);
      ans := ConvertCharacters(ans);
      written := Some(ans);
    }
  }

  /** As written, a seat typed in full-width digits is lost: the digit test after
      the label accepts ASCII digits only, and the conversion to ASCII runs only
      after the extraction. The same code typed in half width survives. */
  lemma FullWidthSeatDropped()
    ensures Converted(BeforeHall("東ア０１ａ")) == "東ア"
    ensures Converted(BeforeHall("東ア01a")) == "東ア01a"
  {
  }

  /** The evident intent: normalise first and extract from the normalised text,
      so that a seat typed in full width is kept. */
  function NormalizedCode(val: string): string
  {
    Converted(BeforeHall(Converted(val)))
  }

  /** The corrected cleanup gives the same code whether the booth was typed in
      full or half width, and keeps a full-width seat. */
  lemma NormalizedCodeIgnoresWidth(val: string)
    ensures NormalizedCode(Converted(val)) == NormalizedCode(val)
    ensures NormalizedCode("東ア０１ａ") == "東ア01a"
  {
    ConvertedIdempotent(val);
  }
}
