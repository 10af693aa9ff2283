/** What pins the alphabet and the checksum down: the characters by name, and a known string of BIP-173. */
module Bech32Known {
  import opened MachineInts
  import opened Bech32Checksum
  import opened Bech32
  import opened Bech32Codec
  import opened Wrappers

  /** A text as ASCII bytes. */
  function Ascii(s: string): (r: seq<ascii>)
    requires forall i :: 0 <= i < |s| ==> s[i] < 128 as char
    ensures |r| == |s|
  {
    seq(|s|, i requires 0 <= i < |s| => s[i] as int)
  }

  const CHARSET := "qpzry9x8gf2tvdw0s3jn54khce6mua7l"
  const SMALL := "abcdefghijklmnopqrstuvwxyz"
  const CAPITAL := "ABCDEFGHIJKLMNOPQRSTUVWXYZ"

  /** The symbols are the characters of the set, in its order. */
  lemma LettersOfSet(p: nat)
    requires p < 32
    ensures Letter(p) == CHARSET[p] as int && PositionOf(CHARSET[p] as int) == Some(p)
  {
  }

  /** The two cases of a letter belong together. */
  lemma CasesOfLetters(i: nat)
    requires i < 26
    ensures ToLower(CAPITAL[i] as int) == SMALL[i] as int && ToUpper(SMALL[i] as int) == CAPITAL[i] as int
  {
  }

  /** A prefix is encoded if it is not empty, all its characters lie between '!' and '~', and no two of its letters differ in case. */
  lemma EncodablePrefix(hrp: seq<ascii>, data: seq<byte>)
    ensures Encoded(hrp, data).Some? <==>
      && hrp != [] && (forall i {:trigger hrp[i]} :: 0 <= i < |hrp| ==> '!' <= hrp[i] as char <= '~')
      && !(exists i, j {:trigger hrp[i], hrp[j]} :: 0 <= i < |hrp| && 0 <= j < |hrp| && hrp[i] as char in SMALL && hrp[j] as char in CAPITAL)
  {
    hide ToLower, ToUpper, Symbols8, Body, Lower, Upper;
    OneCase(hrp);
  }

  lemma OneCase(s: seq<ascii>)
    ensures Lower(s) == s <==> !(exists j {:trigger s[j]} :: 0 <= j < |s| && s[j] as char in CAPITAL)
    ensures Upper(s) == s <==> !(exists i {:trigger s[i]} :: 0 <= i < |s| && s[i] as char in SMALL)
  {
    hide ToLower, ToUpper;
    forall i {:trigger s[i]} | 0 <= i < |s|
      ensures (Lower(s)[i] == s[i] <==> s[i] as char !in CAPITAL) && (Upper(s)[i] == s[i] <==> s[i] as char !in SMALL)
    {
      CaseOfCharacter(s[i]);
    }
  }

  lemma CaseOfCharacter(c: ascii)
    ensures ToLower(c) == c <==> c as char !in CAPITAL
    ensures ToUpper(c) == c <==> c as char !in SMALL
  {
    CapitalLetter(c);
    SmallLetter(c);
  }

  lemma CapitalLetter(c: ascii)
    ensures ToLower(c) == c <==> c as char !in CAPITAL
  {
    if 65 <= c <= 90 {
      assert CAPITAL[c - 65] == c as char;
    } else {
      forall i | 0 <= i < |CAPITAL| ensures CAPITAL[i] != c as char {
        assert 65 <= CAPITAL[i] as int <= 90;
      }
    }
  }

  lemma SmallLetter(c: ascii)
    ensures ToUpper(c) == c <==> c as char !in SMALL
  {
    if 97 <= c <= 122 {
      assert SMALL[c - 97] == c as char;
    } else {
      forall i | 0 <= i < |SMALL| ensures SMALL[i] != c as char {
        assert 97 <= SMALL[i] as int <= 122;
      }
    }
  }

  /** The expanded prefix holds each lower-case character in two parts, the upper bits in front of a zero and the lower five after it. */
  lemma ExpandHoldsPrefix(hrp: seq<ascii>, i: nat)
    requires i < |hrp|
    ensures Expand(hrp)[|hrp|] == 0
    ensures Expand(hrp)[|hrp| + 1 + i] < 32 && 32 * Expand(hrp)[i] as int + Expand(hrp)[|hrp| + 1 + i] as int == ToLower(hrp[i])
  {
    hide ToLower;
  }

  /** The steps of the checksum for the prefix "a" and no data. */
  lemma StepsOfA()
    ensures Step(0x1, 3) == 0x23 && Step(0x23, 0) == 0x460 && Step(0x460, 1) == 0x8c01
  {
    hide Step;
    StepSmall(0x1, 3);
    StepSmall(0x23, 0);
    StepSmall(0x460, 1);
  }

  lemma MoreStepsOfA()
    ensures Step(0x8c01, 0) == 0x118020 && Step(0x118020, 0) == 0x2300400 && Step(0x2300400, 0) == 0x3d6ad7b2
  {
    StepSmall(0x8c01, 0);
    StepSmall(0x118020, 0);
  }

  lemma LastStepsOfA()
    ensures Step(0x3d6ad7b2, 0) == 0x2fd30b9 && Step(0x2fd30b9, 0) == 0x24cc4092 && Step(0x24cc4092, 0) == 0x15ccfe9e
  {
  }

  lemma RunFirst(c: bv32, v: bv32, rest: seq<bv32>)
    ensures Run(c, [v] + rest) == Run(Step(c, v), rest)
  {
    hide Step;
    assert ([v] + rest)[1..] == rest;
  }

  lemma RunOfA()
    ensures Run(1, [3, 0, 1, 0, 0, 0, 0, 0, 0]) == 0x15ccfe9e
  {
    StepsOfA();
    MoreStepsOfA();
    LastStepsOfA();
    hide Step, Run;
    var z: seq<bv32> := [];
    var s1: seq<bv32> := [0] + z;
    var s2: seq<bv32> := [0] + s1;
    var s3: seq<bv32> := [0] + s2;
    var s4: seq<bv32> := [0] + s3;
    var s5: seq<bv32> := [0] + s4;
    var s6: seq<bv32> := [0] + s5;
    var s7: seq<bv32> := [1] + s6;
    var s8: seq<bv32> := [0] + s7;
    assert [3, 0, 1, 0, 0, 0, 0, 0, 0] == [3] + s8;
    RunFirst(0x1, 3, s8);
    RunFirst(0x23, 0, s7);
    RunFirst(0x460, 1, s6);
    RunFirst(0x8c01, 0, s5);
    RunFirst(0x118020, 0, s4);
    RunFirst(0x2300400, 0, s3);
    RunFirst(0x3d6ad7b2, 0, s2);
    RunFirst(0x2fd30b9, 0, s1);
    RunFirst(0x24cc4092, 0, z);
    RunNone(0x15ccfe9e);
  }

  lemma UnpackedOfA()
    ensures X(0x15ccfe9e, 1) == 0x15ccfe9f && Unpacked(0x15ccfe9f, 6) == [10, 28, 25, 31, 20, 31]
  {
    assert Unpacked(0xa, 1) == [10];
    assert Unpacked(0x15c, 2) == [10, 28];
    assert Unpacked(0x2b99, 3) == [10, 28, 25];
    assert Unpacked(0x5733f, 4) == [10, 28, 25, 31];
    assert Unpacked(0xae67f4, 5) == [10, 28, 25, 31, 20];
  }

  lemma SymbolsOfA()
    ensures Syms(Expand(Ascii("a")) + [] + ZEROS) == [3, 0, 1, 0, 0, 0, 0, 0, 0]
  {
    assert Ascii("a") == [97];
    assert Expand([97]) == [3, 0, 1];
    assert Sym(3) == 3 && Sym(0) == 0 && Sym(1) == 1;
  }

  /** The shortest valid string of BIP-173. */
  lemma EncodeOfA()
    ensures Encoded(Ascii("a"), []) == Some(Ascii("a12uel5l"))
    ensures Decoded(Ascii("a12uel5l")) == Some((Ascii("a"), []))
  {
    ChecksumOfA();
    LettersOfA();
    DecodeEncode(Ascii("a"), []);
  }

  lemma ChecksumOfA()
    ensures Checksum(Ascii("a"), []) == [10, 28, 25, 31, 20, 31]
  {
    SymbolsOfA();
    RunOfA();
    UnpackedOfA();
    hide Run, X, Unpacked, Syms, Expand, Ascii;
    assert Unsym(10) == 10 && Unsym(28) == 28 && Unsym(25) == 25 && Unsym(31) == 31 && Unsym(20) == 20;
  }

  lemma LettersOfA()
    requires Checksum(Ascii("a"), []) == [10, 28, 25, 31, 20, 31]
    ensures Encoded(Ascii("a"), []) == Some(Ascii("a12uel5l"))
  {
    hide Checksum;
    assert Ascii("a") == [97] && Lower([97]) == [97];
    NoSymbols();
    assert [] + [10, 28, 25, 31, 20, 31] == [10, 28, 25, 31, 20, 31];
    assert Letters([10, 28, 25, 31, 20, 31]) == Ascii("2uel5l");
    assert Ascii("a12uel5l") == [97] + [SEPARATOR] + Ascii("2uel5l");
  }

  lemma NoSymbols()
    ensures Symbols8([]) == []
  {
  }
}
