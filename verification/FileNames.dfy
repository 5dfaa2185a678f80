/** File names: the check on a name, by the bitmap of the characters it may have
    (HolyCRT/BlkDev/DskStrA.HC, HolyCRT/StrA.HC). */
module FileNames {
  import opened Bits
  import opened BitFields

  const CDIR_FILENAME_LEN := 38

  // char_bmp_filename: one bit for each of 256 characters.
  const CHAR_BMP_FILENAME: seq<nat> :=
    [0, 0x03FF73FB, 0xEFFFFFFF, 0x6FFFFFFF, 0xFFFFFFFF, 0xFFFFFFFF, 0xFFFFFFFF, 0xFFFFFFFF]

  predicate NameChar(ch: char)
  {
    32 <= ch as int < 256 && ch as int != 127 &&
    ch !in {'"', '*', '+', '/', ':', ';', '<', '=', '>', '?', '\\', '|'}
  }

  /** What FileNameChk lets through. */
  predicate ValidName(name: string)
  {
    name == "." || name == ".." ||
    (0 < |name| < CDIR_FILENAME_LEN && forall i :: 0 <= i < |name| ==> NameChar(name[i]))
  }

  // ---- The bitmap ----

  lemma {:induction false} OnesBit(n: nat, k: nat)
    ensures NumBit(Pow2(n) - 1, k) <==> k < n
  {
    if n == 0 {
      HighBitsClear(0, 0, k);
    } else if k > 0 {
      OnesBit(n - 1, k - 1);
    }
  }

  // A number whose low n bits are ones, followed by m zeros and the bits of y.
  lemma OnesThenBits(n: nat, m: nat, y: nat, k: nat)
    ensures NumBit((Pow2(n) - 1) + Pow2(n) * (0 + Pow2(m) * y), k) <==>
            k < n || (k >= n + m && NumBit(y, k - n - m))
  {
    OnesBit(n, k);
    SplitBits(Pow2(n) - 1, 0 + Pow2(m) * y, n, k);
    if k >= n {
      SplitBits(0, y, m, k - n);
      HighBitsClear(0, 0, k - n);
    }
  }

  lemma Powers()
    ensures Pow2(1) == 2 && Pow2(2) == 4 && Pow2(3) == 8 && Pow2(7) == 128 && Pow2(10) == 1024
    ensures Pow2(28) == 0x1000_0000 && Pow2(32) == 0x1_0000_0000
  {
    assert Pow2(4) == 16;
    Pow2Add(7, 7);
    Pow2Add(14, 14);
    Pow2Add(28, 4);
  }

  // Characters 32 to 63: neither of " * + / : ; < = > ?.
  lemma SecondWord(k: nat)
    ensures NumBit(0x03FF73FB, k) <==> k < 26 && k != 2 && k != 10 && k != 11 && k != 15
  {
    Powers();
    OnesBit(10, k - 16 + if k < 16 then 16 else 0);
    OnesThenBits(3, 1, 0x3FF, k - 12 + if k < 12 then 12 else 0);
    OnesThenBits(7, 2, 0x3FF7, k - 3 + if k < 3 then 3 else 0);
    OnesThenBits(2, 1, 0x7FEE7F, k);
  }

  // Characters 64 to 95: not the backslash.
  lemma ThirdWord(k: nat)
    ensures NumBit(0xEFFFFFFF, k) <==> k < 32 && k != 28
  {
    Powers();
    OnesBit(3, k - 29 + if k < 29 then 29 else 0);
    OnesThenBits(28, 1, 7, k);
  }

  // Characters 96 to 127: neither the bar nor the last.
  lemma FourthWord(k: nat)
    ensures NumBit(0x6FFFFFFF, k) <==> k < 31 && k != 28
  {
    Powers();
    OnesBit(2, k - 29 + if k < 29 then 29 else 0);
    OnesThenBits(28, 1, 3, k);
  }

  // Bt on a bitmap of 32-bit words.
  predicate Bt(bmp: seq<nat>, c: nat)
    requires c / 32 < |bmp|
  {
    NumBit(bmp[c / 32], c % 32)
  }

  /** The bitmap's bits are the characters a name may have. */
  lemma BitmapIs(ch: char)
    requires ch as int < 256
    ensures Bt(CHAR_BMP_FILENAME, ch as int) <==> NameChar(ch)
  {
    var c: nat := ch as int;
    var k: nat := c % 32;
    HighBitsClear(0, 0, k);
    SecondWord(k);
    ThirdWord(k);
    FourthWord(k);
    Powers();
    OnesBit(32, k);
    hide NumBit, Pow2;
  }

  // A string as it lies in memory, before its terminating zero.
  predicate InMemory(s: string)
  {
    forall i :: 0 <= i < |s| ==> 0 < s[i] as int < 256
  }

  /** FileNameChk. */
  method FileNameChk(name: string) returns (ok: bool)
    requires InMemory(name)
    ensures ok <==> ValidName(name)
  {
    hide Bt, NameChar;
    if name == "" {
      return false;
    }
    if name[0] == '.' {
      if |name| == 1 {
        return true;
      }
      if name[1] == '.' && |name| == 2 {
        return true;
      }
    }
    if |name| >= CDIR_FILENAME_LEN {
      return false;
    }
    var p := 0;
    while p < |name|
      invariant 0 <= p <= |name| && forall i :: 0 <= i < p ==> NameChar(name[i])
    {
      BitmapIs(name[p]);
      if !Bt(CHAR_BMP_FILENAME, name[p] as int) {
        return false;
      }
      p := p + 1;
    }
    ok := true;
  }
}
