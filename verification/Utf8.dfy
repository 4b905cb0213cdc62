/** UTF-8 as section 4 of RFC 3629 defines it, and the characters of a struct that
    become text. */
module Utf8 {
  import opened Bytes

  predicate IsTail(b: byte)
  {
    0x80 <= b <= 0xBF
  }

  predicate IsTwo(a: byte, b: byte)
  {
    0xC2 <= a <= 0xDF && IsTail(b)
  }

  predicate IsThree(a: byte, b: byte, c: byte)
  {
    && IsTail(c)
    && match a
       case 0xE0 => 0xA0 <= b <= 0xBF
       case 0xED => 0x80 <= b <= 0x9F
       case _ => 0xE1 <= a <= 0xEF && IsTail(b)
  }

  predicate IsFour(a: byte, b: byte, c: byte, d: byte)
  {
    && IsTail(c) && IsTail(d)
    && match a
       case 0xF0 => 0x90 <= b <= 0xBF
       case 0xF4 => 0x80 <= b <= 0x8F
       case _ => 0xF1 <= a <= 0xF3 && IsTail(b)
  }

  /** Octets that decode. */
  predicate WellFormed(s: Bytes)
  {
    || s == []
    || (s[0] <= 0x7F && WellFormed(s[1..]))
    || (|s| >= 2 && IsTwo(s[0], s[1]) && WellFormed(s[2..]))
    || (|s| >= 3 && IsThree(s[0], s[1], s[2]) && WellFormed(s[3..]))
    || (|s| >= 4 && IsFour(s[0], s[1], s[2], s[3]) && WellFormed(s[4..]))
  }

  /** Characters that can be appended to a string one by one; any other raises
      UnicodeDecodeError. */
  predicate IsText(s: Bytes)
  {
    forall i :: 0 <= i < |s| ==> s[i] < 128
  }

  lemma OneOctet(b: byte)
    ensures WellFormed([b]) <==> b < 128
  {
    assert [b][1..] == [];
  }

  /** Characters are text exactly when each of them decodes on its own. */
  lemma TextDecodesOneByOne(s: Bytes)
    ensures IsText(s) <==> forall i :: 0 <= i < |s| ==> WellFormed([s[i]])
  {
    forall i | 0 <= i < |s|
      ensures WellFormed([s[i]]) <==> s[i] < 128
    {
      OneOctet(s[i]);
    }
  }

  /** So text decodes as a whole. */
  lemma {:induction false} TextIsWellFormed(s: Bytes)
    requires IsText(s)
    ensures WellFormed(s)
    decreases |s|
  {
    if s != [] {
      TextIsWellFormed(s[1..]);
    }
  }

  /** But a string that decodes as a whole need not be text: an accented letter
      takes two octets, and neither decodes alone. */
  lemma AccentIsNotText(before: Bytes, after: Bytes)
    requires IsText(before) && IsText(after)
    ensures WellFormed(before + [0xC3, 0xA9] + after) && !IsText(before + [0xC3, 0xA9] + after)
    decreases |before|
  {
    var s := before + [0xC3, 0xA9] + after;
    assert s[|before|] == 0xC3;
    if before == [] {
      assert s[2..] == after;
      TextIsWellFormed(after);
    } else {
      AccentIsNotText(before[1..], after);
      assert s[1..] == before[1..] + [0xC3, 0xA9] + after;
    }
  }
}
