/** Parent pointer and colour in one word (libc/rbtree.h): nodes are at even
    addresses, so bit 0 is free for the colour. */
module PackedWord {

  const RED: bv32 := 0
  const BLACK: bv32 := 1

  predicate IsColor(c: bv32) { c == RED || c == BLACK }

  predicate IsAddress(p: bv32) { p & 1 == 0 }

  function GetParent(w: bv32): bv32 { w & !1 }

  function GetColor(w: bv32): bv32 { w & 1 }

  function SetColor(w: bv32, c: bv32): bv32 { (w & !1) | c }

  /** As written: the old parent is masked out by & 1. */
  function SetParent(w: bv32, p: bv32): bv32 { (w & 1) | p }

  function SetParentColor(p: bv32, c: bv32): bv32 { p | c }

  /** The word is the pair (parent, colour) and nothing else. */
  lemma WordIsPair(w: bv32)
    ensures IsAddress(GetParent(w)) && IsColor(GetColor(w))
    ensures SetParentColor(GetParent(w), GetColor(w)) == w
  {
    assert w & 1 == 0 || w & 1 == 1;
    assert (w & !1) & 1 == 0;
  }

  lemma PairIsWord(p: bv32, c: bv32)
    requires IsAddress(p) && IsColor(c)
    ensures GetParent(SetParentColor(p, c)) == p && GetColor(SetParentColor(p, c)) == c
  {
  }

  /** Each setter changes exactly the half it names. */
  lemma SetColorKeepsParent(w: bv32, c: bv32)
    requires IsColor(c)
    ensures GetColor(SetColor(w, c)) == c && GetParent(SetColor(w, c)) == GetParent(w)
  {
    WordIsPair(w);
    PairIsWord(GetParent(w), c);
    assert SetColor(w, c) == SetParentColor(GetParent(w), c);
  }

  lemma SetParentKeepsColor(w: bv32, p: bv32)
    requires IsAddress(p)
    ensures GetParent(SetParent(w, p)) == p && GetColor(SetParent(w, p)) == GetColor(w)
  {
    WordIsPair(w);
    PairIsWord(p, GetColor(w));
    Swapped(GetColor(w), p);
    assert SetParent(w, p) == SetParentColor(p, GetColor(w));
  }

  lemma Swapped(a: bv32, b: bv32)
    ensures a | b == b | a
  {
  }

  /** The macros trust their callers: an odd address spoils the colour. */
  lemma OddAddressSpoilsColor(w: bv32, p: bv32)
    requires p & 1 == 1
    ensures GetColor(SetParent(w, p)) == BLACK && GetParent(SetParent(w, p)) != p
  {
    assert ((w & 1) | p) & 1 == 1;
    assert (((w & 1) | p) & !1) & 1 == 0;
  }
}
