/** Single bits of 8-bit and 32-bit words under |, & and ^ with a shifted one. */
module BitWords {

  function Mask8(k: nat): bv8
    requires k < 8
  {
    1 << k
  }

  predicate Bit8(w: bv8, k: nat)
    requires k < 8
  {
    (w >> k) & 1 == 1
  }

  lemma SetBit8(w: bv8, z: nat, k: nat)
    requires z < 8 && k < 8
    ensures Bit8(w | Mask8(z), k) <==> z == k || Bit8(w, k)
  {
  }

  lemma ClearBit8(w: bv8, z: nat, k: nat)
    requires z < 8 && k < 8
    ensures Bit8(w & !Mask8(z), k) <==> z != k && Bit8(w, k)
  {
  }

  /** The word after SET_BIT or CLEAR_BIT of the mask 1 << k. */
  method WriteBit8(w: bv8, k: nat, val: bool) returns (w': bv8)
    requires k < 8
    ensures forall j: nat :: j < 8 ==> (Bit8(w', j) <==> if j == k then val else Bit8(w, j))
  {
    if val {
      w' := w | Mask8(k);
      forall j: nat | j < 8 ensures Bit8(w', j) <==> if j == k then val else Bit8(w, j) {
        SetBit8(w, k, j);
      }
    } else {
      w' := w & !Mask8(k);
      forall j: nat | j < 8 ensures Bit8(w', j) <==> if j == k then val else Bit8(w, j) {
        ClearBit8(w, k, j);
      }
    }
  }

  lemma TestBit8(w: bv8, k: nat)
    requires k < 8
    ensures w & Mask8(k) != 0 <==> Bit8(w, k)
  {
  }

  /** Bit n of a bitmap packed eight to a byte. */
  ghost predicate BitAt8(words: seq<bv8>, n: nat)
    requires n / 8 < |words|
  {
    Bit8(words[n / 8], n % 8)
  }

  /** The bitmap holds the bits b. */
  ghost predicate Packed8(words: seq<bv8>, b: seq<bool>) {
    |b| <= 8 * |words| && forall n: nat {:trigger BitAt8(words, n)} :: n < |b| ==> b[n] == BitAt8(words, n)
  }

  /** Rewriting one bit of one byte rewrites that bit of the bitmap. */
  lemma PackedUpdate8(words: seq<bv8>, b: seq<bool>, idx: nat, w: bv8, val: bool)
    requires Packed8(words, b) && idx < |b|
    requires forall j: nat :: j < 8 ==> (Bit8(w, j) <==> if j == idx % 8 then val else Bit8(words[idx / 8], j))
    ensures Packed8(words[idx / 8 := w], b[idx := val])
  {
    var words', b' := words[idx / 8 := w], b[idx := val];
    forall n: nat | n < |b'| ensures b'[n] == BitAt8(words', n) {
      assert b[n] == BitAt8(words, n);
      assert n == idx <==> n / 8 == idx / 8 && n % 8 == idx % 8;
    }
  }

  function Mask32(k: nat): bv32
    requires k < 32
  {
    1 << k
  }

  predicate Meets32(w: bv32, m: bv32) { w & m != 0 }

  predicate Bit32(w: bv32, k: nat)
    requires k < 32
  {
    Meets32(w, Mask32(k))
  }

  lemma MasksApart(z: nat, k: nat)
    requires z < 32 && k < 32
    ensures Mask32(z) != 0
    ensures z != k ==> Mask32(z) & Mask32(k) == 0
  {
  }

  lemma SetOne(w: bv32, m: bv32)
    ensures (w | m) & m == m
  {
  }

  lemma SetOther(w: bv32, m: bv32, n: bv32)
    requires m & n == 0
    ensures (w | m) & n == w & n
  {
  }

  lemma ToggleOne(w: bv32, m: bv32)
    requires m & (m - 1) == 0 && m != 0
    ensures (w ^ m) & m != 0 <==> w & m == 0
  {
  }

  lemma ToggleOther(w: bv32, m: bv32, n: bv32)
    requires m & n == 0
    ensures (w ^ m) & n == w & n
  {
  }

  lemma MaskIsOneBit(z: nat)
    requires z < 32
    ensures Mask32(z) & (Mask32(z) - 1) == 0
  {
  }

  lemma SetSame32(w: bv32, z: nat)
    requires z < 32
    ensures Bit32(w | Mask32(z), z)
  {
    MasksApart(z, z);
    SetOne(w, Mask32(z));
  }

  lemma SetOther32(w: bv32, z: nat, k: nat)
    requires z < 32 && k < 32 && z != k
    ensures Bit32(w | Mask32(z), k) <==> Bit32(w, k)
  {
    MasksApart(z, k);
    SetOther(w, Mask32(z), Mask32(k));
  }

  lemma ToggleSame32(w: bv32, z: nat)
    requires z < 32
    ensures Bit32(w ^ Mask32(z), z) <==> !Bit32(w, z)
  {
    MasksApart(z, z);
    MaskIsOneBit(z);
    ToggleOne(w, Mask32(z));
  }

  lemma ToggleOther32(w: bv32, z: nat, k: nat)
    requires z < 32 && k < 32 && z != k
    ensures Bit32(w ^ Mask32(z), k) <==> Bit32(w, k)
  {
    MasksApart(z, k);
    ToggleOther(w, Mask32(z), Mask32(k));
  }

  /** The word after |= 1 << z. */
  method OrBit32(w: bv32, z: nat) returns (w': bv32)
    requires z < 32
    ensures forall j: nat :: j < 32 ==> (Bit32(w', j) <==> j == z || Bit32(w, j))
  {
    w' := w | Mask32(z);
    forall j: nat | j < 32 ensures Bit32(w', j) <==> j == z || Bit32(w, j) {
      if j == z {
        SetSame32(w, z);
      } else {
        SetOther32(w, z, j);
      }
    }
  }

  /** The word after ^= 1 << z. */
  method XorBit32(w: bv32, z: nat) returns (w': bv32)
    requires z < 32
    ensures forall j: nat :: j < 32 ==> (Bit32(w', j) <==> if j == z then !Bit32(w, j) else Bit32(w, j))
  {
    w' := w ^ Mask32(z);
    forall j: nat | j < 32 ensures Bit32(w', j) <==> if j == z then !Bit32(w, j) else Bit32(w, j) {
      if j == z {
        ToggleSame32(w, z);
      } else {
        ToggleOther32(w, z, j);
      }
    }
  }
}
