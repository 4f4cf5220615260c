/**
 * `toThousand`: writes a natural number in decimal with `.` between groups of
 * three digits, by replacing every match of the regular expression
 * `\B(?=(\d{3})+(?!\d))` with `.`.
 */
module Thousands {
  import opened Text

  /** `(\d{3})+` followed by the end: `n` digits make one or more groups of three. */
  predicate ThreeGroups(n: nat)
    decreases n
  {
    n == 3 || (n > 3 && ThreeGroups(n - 3))
  }

  /**
   * The replacement applied to the string `s` from position `i` on. In a string
   * of digits the pattern matches the empty string at position `i` exactly when
   * `i` is not a word boundary (0 < i < |s|) and the digits from `i` to the end
   * make one or more groups of three.
   */
  function SeparateFrom(s: string, i: nat): string
    requires i <= |s|
    decreases |s| - i
  {
    if i == |s| then ""
    else Mark(s, i) + [s[i]] + SeparateFrom(s, i + 1)
  }

  /** The separator inserted before position `i`, if the pattern matches there. */
  function Mark(s: string, i: nat): string
    requires i <= |s|
  {
    if 0 < i && ThreeGroups(|s| - i) then "." else ""
  }

  /** `toThousand(n)`: the separator replacement over `n.toString()`. */
  function ToThousand(n: nat): string {
    SeparateFrom(NatToString(n), 0)
  }

  /** Reference definition: the last three digits are a group, the rest is grouped the same way. */
  function Grouped(s: string): string
    decreases |s|
  {
    if |s| <= 3 then s else Grouped(s[..|s| - 3]) + "." + s[|s| - 3..]
  }

  /** `s` with every `.` deleted. */
  function RemoveDots(s: string): string
    decreases |s|
  {
    if s == [] then []
    else RemoveDots(s[..|s| - 1]) + (if s[|s| - 1] == '.' then [] else [s[|s| - 1]])
  }

  /** A first group of one to three digits, then groups of exactly three digits, each after a `.`. */
  predicate WellGrouped(r: string)
    decreases |r|
  {
    if |r| <= 3 then 1 <= |r| && AllDigits(r)
    else r[|r| - 4] == '.' && AllDigits(r[|r| - 3..]) && WellGrouped(r[..|r| - 4])
  }

  // ---------------------------------------------------------------------------
  // The separator replacement is the grouping from the right
  // ---------------------------------------------------------------------------

  /** Near the end of the string (or in a string of at most three characters) nothing is inserted. */
  lemma {:induction false} SeparateShortTail(s: string, i: nat)
    requires i <= |s| && (|s| - i < 3 || |s| <= 3)
    ensures SeparateFrom(s, i) == s[i..]
    decreases |s| - i
  {
    if i < |s| {
      SeparateShortTail(s, i + 1);
      assert s[i..] == [s[i]] + s[i + 1..];
    }
  }

  /** Splitting off the last three characters: the replacement on the rest, a dot, and the last group. */
  lemma {:induction false} SeparateLastGroup(s: string, i: nat)
    requires |s| > 3 && i <= |s| - 3
    ensures SeparateFrom(s, i) == SeparateFrom(s[..|s| - 3], i) + ("." + s[|s| - 3..])
    decreases |s| - 3 - i
  {
    if i == |s| - 3 {
      SeparateAtLastGroup(s);
    } else {
      SeparateLastGroup(s, i + 1);
      SeparateStep(s, i);
    }
  }

  /** One step of the induction above: the character at `i` and its separator are the same in `s` and in its prefix. */
  lemma SeparateStep(s: string, i: nat)
    requires |s| > 3 && i < |s| - 3
    requires SeparateFrom(s, i + 1) == SeparateFrom(s[..|s| - 3], i + 1) + ("." + s[|s| - 3..])
    ensures SeparateFrom(s, i) == SeparateFrom(s[..|s| - 3], i) + ("." + s[|s| - 3..])
  {
    var p, tail := s[..|s| - 3], "." + s[|s| - 3..];
    GroupsShift(|p| - i);
    var head := Mark(s, i) + [s[i]];
    assert head == Mark(p, i) + [p[i]];
    ConcatAssoc(head, SeparateFrom(p, i + 1), tail);
  }


  /** The last three characters are preceded by a separator and nothing is inserted among them. */
  lemma SeparateAtLastGroup(s: string)
    requires |s| > 3
    ensures SeparateFrom(s, |s| - 3) == SeparateFrom(s[..|s| - 3], |s| - 3) + ("." + s[|s| - 3..])
  {
    var m := |s| - 3;
    assert SeparateFrom(s[..m], m) == "";
    SeparateShortTail(s, m + 1);
    assert Mark(s, m) == ".";
    assert s[m..] == [s[m]] + s[m + 1..];
  }

  /** Three more digits make groups exactly when the digits before them do. */
  lemma GroupsShift(n: nat)
    requires n >= 1
    ensures ThreeGroups(n + 3) == ThreeGroups(n)
  {
  }


  lemma {:induction false} SeparateIsGrouped(s: string)
    ensures SeparateFrom(s, 0) == Grouped(s)
    decreases |s|
  {
    if |s| <= 3 {
      SeparateShortTail(s, 0);
    } else {
      SeparateLastGroup(s, 0);
      SeparateIsGrouped(s[..|s| - 3]);
      ConcatAssoc(Grouped(s[..|s| - 3]), ".", s[|s| - 3..]);
    }
  }

  // ---------------------------------------------------------------------------
  // What toThousand promises
  // ---------------------------------------------------------------------------

  lemma {:induction false} RemoveDotsAppend(a: string, b: string)
    ensures RemoveDots(a + b) == RemoveDots(a) + RemoveDots(b)
    decreases |b|
  {
    if b == [] {
      assert a + b == a;
    } else {
      RemoveDotsAppend(a, b[..|b| - 1]);
      assert (a + b)[..|a + b| - 1] == a + b[..|b| - 1];
    }
  }

  lemma {:induction false} RemoveDotsOfDigits(s: string)
    requires AllDigits(s)
    ensures RemoveDots(s) == s
    decreases |s|
  {
    if s != [] {
      RemoveDotsOfDigits(s[..|s| - 1]);
    }
  }

  lemma {:induction false} GroupedDigits(s: string)
    requires AllDigits(s)
    ensures RemoveDots(Grouped(s)) == s
    decreases |s|
  {
    if |s| <= 3 {
      RemoveDotsOfDigits(s);
    } else {
      var p, tail := s[..|s| - 3], s[|s| - 3..];
      assert AllDigits(p) && AllDigits(tail) by {
        assert forall k :: 0 <= k < |p| ==> p[k] == s[k];
        assert forall k :: 0 <= k < 3 ==> tail[k] == s[|s| - 3 + k];
      }
      GroupedDigits(p);
      RemoveDotsGroup(Grouped(p), tail);
      assert p + tail == s;
    }
  }

  /** The separator before a group of digits disappears when the dots are deleted. */
  lemma RemoveDotsGroup(g: string, tail: string)
    requires AllDigits(tail)
    ensures RemoveDots(g + "." + tail) == RemoveDots(g) + tail
  {
    assert (g + ".")[..|g|] == g;
    RemoveDotsAppend(g + ".", tail);
    RemoveDotsOfDigits(tail);
  }

  lemma {:induction false} GroupedShape(s: string)
    requires 1 <= |s| && AllDigits(s)
    ensures WellGrouped(Grouped(s))
    decreases |s|
  {
    if |s| > 3 {
      var p, tail := s[..|s| - 3], s[|s| - 3..];
      assert AllDigits(p) && AllDigits(tail) by {
        assert forall k :: 0 <= k < |p| ==> p[k] == s[k];
        assert forall k :: 0 <= k < 3 ==> tail[k] == s[|s| - 3 + k];
      }
      GroupedShape(p);
      WellGroupedAppend(Grouped(p), tail);
    }
  }

  /** A well-grouped number followed by `.` and three digits is well grouped. */
  lemma WellGroupedAppend(g: string, tail: string)
    requires WellGrouped(g) && |tail| == 3 && AllDigits(tail)
    ensures WellGrouped(g + "." + tail)
  {
    var r := g + "." + tail;
    assert r[..|r| - 4] == g;
    assert r[|r| - 3..] == tail;
  }

  /** Deleting the separators from `toThousand(n)` gives the decimal digits of `n`. */
  lemma ToThousandDigits(n: nat)
    ensures RemoveDots(ToThousand(n)) == NatToString(n)
  {
    SeparateIsGrouped(NatToString(n));
    GroupedDigits(NatToString(n));
  }

  /** `toThousand(n)` is a group of one to three digits followed by `.`-separated groups of three. */
  lemma ToThousandGroups(n: nat)
    ensures WellGrouped(ToThousand(n))
  {
    SeparateIsGrouped(NatToString(n));
    GroupedShape(NatToString(n));
  }

  /** Below one thousand there is no group to separate: the number is written plainly. */
  lemma ToThousandBelowThousand(n: nat)
    requires n < 1000
    ensures ToThousand(n) == NatToString(n)
  {
    assert |NatToString(n)| <= 3 by {
      if n >= 10 {
        assert |NatToString(n / 10)| <= 2;
      }
    }
    SeparateShortTail(NatToString(n), 0);
  }

  /** 1234567 is written 1.234.567. */
  lemma ToThousandExample()
    ensures ToThousand(1234567) == "1.234.567"
  {
    ExampleDigits();
    SeparateIsGrouped("1234567");
    ExampleGroups();
  }

  lemma ExampleGroups()
    ensures Grouped("1234567") == "1.234.567"
  {
    assert "1234"[..1] == "1" && "1234"[1..] == "234";
    assert Grouped("1234") == "1.234";
    assert "1234567"[..4] == "1234" && "1234567"[4..] == "567";
  }

  lemma ExampleDigits()
    ensures NatToString(1234567) == "1234567"
  {
    assert NatToString(12) == "12";
    assert NatToString(123) == "123";
    assert NatToString(1234) == "1234";
    assert NatToString(12345) == "12345";
    assert NatToString(123456) == "123456";
  }
}
