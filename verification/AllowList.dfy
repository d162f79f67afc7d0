/** `createBitset` of nvidia-cuvs/go/cagra/cagra.go: an allow-list of 32-bit ids becomes a
    bit set. For unsigned ids, `>> 5` is division by 32 and `& 31` the remainder. */
module AllowList {

  function Bit(p: nat): bv32
    requires p < 32
  {
    1 << p
  }

  predicate Meets(w: bv32, b: bv32) {
    w & b != 0
  }

  function Or(w: bv32, b: bv32): bv32 {
    w | b
  }

  predicate Has(words: seq<bv32>, id: nat) {
    id / 32 < |words| && Meets(words[id / 32], Bit(id % 32))
  }

  /** Digit `p` of the word, counted from the least significant. */
  ghost predicate Digit(w: bv32, p: nat)
    requires p < 32
  {
    (w >> p) & 1 == 1
  }

  lemma MeetsIsDigit(w: bv32, p: nat)
    requires p < 32
    ensures Meets(w, Bit(p)) <==> Digit(w, p)
  {
  }

  /** Number `id` is digit `id % 32` of word `id / 32`. */
  lemma HasIsDigit(words: seq<bv32>, id: nat)
    ensures Has(words, id) <==> id / 32 < |words| && Digit(words[id / 32], id % 32)
  {
    hide Meets, Bit, Digit;
    if id / 32 < |words| { MeetsIsDigit(words[id / 32], id % 32); }
  }

  lemma BitsDiffer(p: nat, q: nat)
    requires p < 32 && q < 32 && p != q
    ensures Bit(p) & Bit(q) == 0
  {
  }

  lemma BitIsNotZero(p: nat)
    requires p < 32
    ensures Bit(p) != 0
  {
  }

  lemma OrOther(w: bv32, a: bv32, b: bv32)
    requires a & b == 0
    ensures Or(w, a) & b == w & b
  {
  }

  lemma OrSame(w: bv32, a: bv32)
    requires a != 0
    ensures Or(w, a) & a != 0
  {
  }

  /** After setting `a`, the bit `b` is set if it was, or if it is the same bit. */
  lemma OrBit(w: bv32, a: bv32, b: bv32, same: bool)
    requires a != 0 && if same then a == b else a & b == 0
    ensures Meets(Or(w, a), b) <==> Meets(w, b) || same
  {
    hide Or;
    if same { OrSame(w, a); } else { OrOther(w, a, b); }
  }

  lemma ZeroWord(b: bv32)
    ensures !Meets(0, b)
  {
  }

  lemma BitsCompare(p: nat, q: nat)
    requires p < 32 && q < 32
    ensures Bit(p) != 0 && if p == q then Bit(p) == Bit(q) else Bit(p) & Bit(q) == 0
  {
    hide Bit;
    BitIsNotZero(p);
    if p != q { BitsDiffer(p, q); }
  }

  /** Setting the bit of `id` changes the membership of `id` and of no other number. */
  lemma SetBit(words: seq<bv32>, id: nat, x: nat)
    requires id / 32 < |words|
    ensures Has(words[id / 32 := Or(words[id / 32], Bit(id % 32))], x) <==> Has(words, x) || x == id
  {
    hide Bit, Meets, Or;
    BitsCompare(id % 32, x % 32);
    OrBit(words[id / 32], Bit(id % 32), Bit(x % 32), id % 32 == x % 32);
  }

  /** `words` holds exactly the ids of `list`. */
  ghost predicate Represents(words: seq<bv32>, list: seq<nat>) {
    forall x: nat :: Has(words, x) <==> x in list
  }

  lemma AddOne(words: seq<bv32>, list: seq<nat>, id: nat)
    requires Represents(words, list) && id / 32 < |words|
    ensures Represents(words[id / 32 := Or(words[id / 32], Bit(id % 32))], list + [id])
  {
    hide Has;
    forall x: nat ensures Has(words[id / 32 := Or(words[id / 32], Bit(id % 32))], x) <==> x in list + [id] {
      SetBit(words, id, x);
    }
  }

  lemma NoneSet(words: seq<bv32>)
    requires forall i :: 0 <= i < |words| ==> words[i] == 0
    ensures Represents(words, [])
  {
    forall x: nat ensures !Has(words, x) {
      ZeroWord(Bit(x % 32));
    }
  }

  method CreateBitset(allowList: seq<nat>) returns (bitset: array<bv32>)
    requires forall i :: 0 <= i < |allowList| ==> allowList[i] < 0x1_0000_0000
    // a bit is set exactly for the listed ids
    ensures Represents(bitset[..], allowList)
    // there is no word more than the largest id needs
    ensures 0 < bitset.Length <= 0x800_0000
    ensures allowList != [] ==> exists i :: 0 <= i < |allowList| && allowList[i] / 32 == bitset.Length - 1
    ensures allowList == [] ==> bitset.Length == 1
  {
    hide Represents, Bit;
    var maxId := 0;
    for i := 0 to |allowList|
      invariant 0 <= maxId < 0x1_0000_0000 && forall j :: 0 <= j < i ==> allowList[j] <= maxId
      invariant maxId == 0 || exists j :: 0 <= j < i && allowList[j] == maxId
    {
      if allowList[i] > maxId { maxId := allowList[i]; }
    }
    var size := maxId / 32 + 1;
    if allowList != [] {
      if maxId == 0 { assert allowList[0] / 32 == size - 1; }
    }
    bitset := new bv32[size](_ => 0);
    NoneSet(bitset[..]);
    assert allowList[..0] == [];
    ghost var words := bitset[..];
    for i := 0 to |allowList|
      invariant bitset[..] == words && |words| == size && Represents(words, allowList[..i])
    {
      var id := allowList[i];
      assert allowList[..i + 1] == allowList[..i] + [id];
      AddOne(words, allowList[..i], id);
      words := words[id / 32 := Or(words[id / 32], Bit(id % 32))];
      bitset[id / 32] := Or(bitset[id / 32], Bit(id % 32));
      assert bitset[..] == words;
    }
    assert allowList[..|allowList|] == allowList;
  }

  /** No smaller array represents the list: it would lose the largest id. */
  lemma NoSmallerArray(words: seq<bv32>, list: seq<nat>, id: nat)
    requires id in list && |words| <= id / 32
    ensures !Represents(words, list)
  {
    assert !Has(words, id);
  }
}
