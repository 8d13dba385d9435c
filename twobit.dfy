/** The packed 2-bit array of general/twoBitArrays.h: a byte buffer holding four
  * 2-bit elements per byte (a "limb", element 0 in the low bits), and a cursor
  * made of the limb pointer and the element number inside it. */
module TwoBitArrays {

  /** Element `e` (0..3) of a limb: `(limb & (3 << 2e)) >> 2e`. */
  function LimbElm(limb: bv8, e: bv8): (v: bv8)
    requires e < 4
    ensures v < 4
  {
    (limb & (3 << (e << 1))) >> (e << 1)
  }

  /** A limb with element `e` replaced: `(limb & ~(3 << 2e)) | (v << 2e)`, the
    * new value shifted without masking, as changeTwoBitElm does. */
  function SetLimbElm(limb: bv8, e: bv8, v: bv8): bv8
    requires e < 4
  {
    (limb & !(3 << (e << 1))) | (v << (e << 1))
  }

  /** Writing a value below 4 into element `e` reads back that value and leaves
    * the other three elements of the limb alone. */
  lemma SetLimbElmSpec(limb: bv8, e: bv8, v: bv8, f: bv8)
    requires e < 4 && f < 4 && v < 4
    ensures LimbElm(SetLimbElm(limb, e, v), f) == if f == e then v else LimbElm(limb, f)
  {
  }

  /** The element number 0..3 as the byte-sized elmOnC. */
  function ElmNum(e: int): (b: bv8)
    requires 0 <= e < 4
    ensures b < 4 && b as int == e
  {
    if e == 0 then 0 else if e == 1 then 1 else if e == 2 then 2 else 3
  }

  /** Element `k` of a buffer of limbs. */
  function ElmAt(limbs: seq<bv8>, k: int): (v: int)
    requires 0 <= k < 4 * |limbs|
    ensures 0 <= v < 4
  {
    LimbElm(limbs[k / 4], ElmNum(k % 4)) as int
  }

  /** The four elements of one limb, element 0 first. */
  function LimbElms(limb: bv8): (e: seq<int>)
    ensures |e| == 4
  {
    [LimbElm(limb, 0) as int, LimbElm(limb, 1) as int, LimbElm(limb, 2) as int, LimbElm(limb, 3) as int]
  }

  /** All elements of a buffer of limbs, in index order. */
  function ElmsOf(limbs: seq<bv8>): (e: seq<int>)
    ensures |e| == 4 * |limbs|
  {
    if |limbs| == 0 then [] else ElmsOf(limbs[..|limbs| - 1]) + LimbElms(limbs[|limbs| - 1])
  }

  /** Element k of the sequence is element k of the buffer. */
  lemma {:induction false} ElmsOfAt(limbs: seq<bv8>, k: int)
    requires 0 <= k < 4 * |limbs|
    ensures ElmsOf(limbs)[k] == ElmAt(limbs, k)
  {
    var n := |limbs| - 1;
    if k < 4 * n {
      ElmsOfAt(limbs[..n], k);
      assert limbs[..n][k / 4] == limbs[k / 4];
    } else {
      assert k / 4 == n;
      assert ElmsOf(limbs)[k] == LimbElms(limbs[n])[k - 4 * n];
    }
  }

  lemma ElmsOfIndex(limbs: seq<bv8>)
    ensures forall k :: 0 <= k < 4 * |limbs| ==> ElmsOf(limbs)[k] == ElmAt(limbs, k)
  {
    forall k | 0 <= k < 4 * |limbs|
      ensures ElmsOf(limbs)[k] == ElmAt(limbs, k)
    {
      ElmsOfAt(limbs, k);
    }
  }

  /** Buffer-level write: element `k` becomes `v`, every other element stays. */
  lemma SetElmSpec(limbs: seq<bv8>, k: int, v: bv8)
    requires 0 <= k < 4 * |limbs| && v < 4
    ensures var after := limbs[k / 4 := SetLimbElm(limbs[k / 4], ElmNum(k % 4), v)];
            forall j :: 0 <= j < 4 * |limbs| ==>
              ElmAt(after, j) == if j == k then v as int else ElmAt(limbs, j)
  {
    var after := limbs[k / 4 := SetLimbElm(limbs[k / 4], ElmNum(k % 4), v)];
    forall j | 0 <= j < 4 * |limbs|
      ensures ElmAt(after, j) == if j == k then v as int else ElmAt(limbs, j)
    {
      if j / 4 == k / 4 {
        SetLimbElmSpec(limbs[k / 4], ElmNum(k % 4), v, ElmNum(j % 4));
      }
    }
  }

  /** The same write, stated on the whole element sequence. */
  lemma SetElmsSpec(limbs: seq<bv8>, k: int, v: bv8)
    requires 0 <= k < 4 * |limbs| && v < 4
    ensures ElmsOf(limbs[k / 4 := SetLimbElm(limbs[k / 4], ElmNum(k % 4), v)]) == ElmsOf(limbs)[k := v as int]
  {
    var after := limbs[k / 4 := SetLimbElm(limbs[k / 4], ElmNum(k % 4), v)];
    SetElmSpec(limbs, k, v);
    ElmsOfIndex(limbs);
    ElmsOfIndex(after);
  }

  /** twoBitAry: the buffer (firstLimbUCPtr, null for a blank array), the cursor
    * (limbOnUCPtr as an offset into the buffer, and elmOnC) and lenAryUL. */
  class TwoBitAry {
    var firstLimb: array?<bv8>
    var limbOn: int
    var elmOn: int
    var lenAry: int

    /** The cursor is inside a limb: elmOnC is 0..3 and the limb offset is not
      * before the buffer. */
    ghost predicate Valid()
      reads this
    {
      0 <= elmOn < 4 && 0 <= limbOn
    }

    /** twoBitGetIndex: `((limbOn - firstLimb) << 2) + elmOnC`. */
    function Index(): int
      reads this
    {
      limbOn * 4 + elmOn
    }

    /** The cursor points at an element that exists in the buffer. */
    ghost predicate OnElement()
      reads this, firstLimb
    {
      Valid() && firstLimb != null && limbOn < firstLimb.Length
    }

    /** twoBitGetLen: `lenAryUL << 2`. */
    function GetLen(): (n: int)
      reads this
      ensures n == 4 * lenAry
    {
      lenAry * 4
    }

    /** An empty cursor over no buffer. */
    constructor Blank()
      ensures firstLimb == null && limbOn == 0 && elmOn == 0 && lenAry == 0
      ensures Valid()
    {
      firstLimb := null;
      limbOn := 0;
      elmOn := 0;
      lenAry := 0;
    }

    /** getTwoBitElm: the element under the cursor. */
    method GetTwoBitElm() returns (v: int)
      requires OnElement()
      ensures 0 <= v < 4
      ensures v == ElmsOf(firstLimb[..])[Index()]
    {
      v := LimbElm(firstLimb[limbOn], ElmNum(elmOn)) as int;
      assert limbOn == Index() / 4 && elmOn == Index() % 4;
      ElmsOfAt(firstLimb[..], Index());
    }

    /** changeTwoBitElm: overwrites the element under the cursor. A value below 4
      * is read back by getTwoBitElm and no other element changes. */
    method ChangeTwoBitElm(v: bv8)
      requires OnElement()
      modifies firstLimb
      ensures firstLimb[..] == old(firstLimb[..])[limbOn := SetLimbElm(old(firstLimb[limbOn]), ElmNum(elmOn), v)]
      ensures v < 4 ==> ElmsOf(firstLimb[..]) == ElmsOf(old(firstLimb[..]))[Index() := v as int]
    {
      firstLimb[limbOn] := SetLimbElm(firstLimb[limbOn], ElmNum(elmOn), v);
      if v < 4 {
        assert limbOn == Index() / 4 && elmOn == Index() % 4;
        SetElmsSpec(old(firstLimb[..]), Index(), v);
      }
    }

    /** twoBitMvToNextElm: one element forward, spilling into the next limb. */
    method TwoBitMvToNextElm()
      requires Valid()
      modifies this
      ensures Valid() && Index() == old(Index()) + 1
      ensures firstLimb == old(firstLimb) && lenAry == old(lenAry)
    {
      elmOn := elmOn + 1;
      limbOn := limbOn + elmOn / 4;
      elmOn := elmOn % 4;
    }

    /** twoBitMvForXElm: `shiftBy` elements forward. */
    method TwoBitMvForXElm(shiftBy: nat)
      requires Valid()
      modifies this
      ensures Valid() && Index() == old(Index()) + shiftBy
      ensures firstLimb == old(firstLimb) && lenAry == old(lenAry)
    {
      var s := shiftBy + elmOn;
      limbOn := limbOn + s / 4;
      elmOn := s % 4;
    }

    /** twoBitMvBackOneElm: one element back; elmOnC -1 borrows from the limb
      * pointer (getCNegBit) and wraps to 3. */
    method TwoBitMvBackOneElm()
      requires Valid() && Index() >= 1
      modifies this
      ensures Valid() && Index() == old(Index()) - 1
      ensures firstLimb == old(firstLimb) && lenAry == old(lenAry)
    {
      elmOn := elmOn - 1;
      limbOn := limbOn - (if elmOn < 0 then 1 else 0);
      elmOn := elmOn % 4;
    }

    /** twoBitMvBackXElm: `shiftBy` elements back; a negative element number
      * borrows one limb and gets 4 added back. */
    method TwoBitMvBackXElm(shiftBy: nat)
      requires Valid() && Index() >= shiftBy
      modifies this
      ensures Valid() && Index() == old(Index()) - shiftBy
      ensures firstLimb == old(firstLimb) && lenAry == old(lenAry)
    {
      elmOn := elmOn - shiftBy % 4;
      var neg := elmOn < 0;
      limbOn := limbOn - (shiftBy / 4 + (if neg then 1 else 0));
      elmOn := if neg then elmOn + 4 else elmOn;
    }

    /** twoBitMvToNextLimb: to element 0 of the next limb. */
    method TwoBitMvToNextLimb()
      requires Valid()
      modifies this
      ensures Valid() && Index() == (old(limbOn) + 1) * 4
      ensures firstLimb == old(firstLimb) && lenAry == old(lenAry)
    {
      limbOn := limbOn + 1;
      elmOn := 0;
    }

    /** twoBitMvToLastLimb: to element 0 of the previous limb. */
    method TwoBitMvToLastLimb()
      requires Valid() && limbOn >= 1
      modifies this
      ensures Valid() && Index() == (old(limbOn) - 1) * 4
      ensures firstLimb == old(firstLimb) && lenAry == old(lenAry)
    {
      limbOn := limbOn - 1;
      elmOn := 0;
    }

    /** twoBitMvXElmFromStart: the cursor goes to element `shiftBy` counted from
      * the first limb, so twoBitGetIndex then returns `shiftBy`. */
    method TwoBitMvXElmFromStart(shiftBy: nat)
      modifies this
      ensures Valid() && Index() == shiftBy
      ensures firstLimb == old(firstLimb) && lenAry == old(lenAry)
    {
      limbOn := shiftBy / 4;
      elmOn := shiftBy % 4;
    }

    /** cpTwoBitPos: `dup` becomes a second cursor over the same buffer. */
    method CpTwoBitPos(dup: TwoBitAry)
      requires dup != this
      modifies dup
      ensures dup.firstLimb == firstLimb && dup.limbOn == limbOn
      ensures dup.elmOn == elmOn && dup.lenAry == lenAry
    {
      dup.firstLimb := firstLimb;
      dup.limbOn := limbOn;
      dup.elmOn := elmOn;
      dup.lenAry := lenAry;
    }

    /** freeTwoBitStack: drops the buffer and zeroes the cursor when there is a
      * buffer; a blank array is left as it is. */
    method FreeTwoBitStack()
      modifies this
      ensures old(firstLimb) != null ==>
                firstLimb == null && limbOn == 0 && elmOn == 0 && lenAry == 0
      ensures old(firstLimb) == null ==>
                firstLimb == null && limbOn == old(limbOn) && elmOn == old(elmOn) && lenAry == old(lenAry)
    {
      if firstLimb != null {
        firstLimb := null;
        limbOn := 0;
        elmOn := 0;
        lenAry := 0;
      }
    }
  }

  /** makeTwoBit: with `blankAry` false, a zeroed buffer of `(lenAry >> 2) + 1`
    * limbs with lenAryUL `((lenAry >> 2) << 2) + 4`; with `blankAry` true, a
    * structure without a buffer. `allocFails` stands for malloc or calloc
    * returning 0, which gives null. */
  method MakeTwoBit(lenAry: nat, blankAry: bool, allocFails: bool) returns (t: TwoBitAry?)
    ensures allocFails <==> t == null
    ensures t != null ==> fresh(t) && t.Valid() && t.Index() == 0
    ensures t != null && blankAry ==> t.firstLimb == null && t.lenAry == 0
    ensures t != null && !blankAry ==>
              && t.firstLimb != null && fresh(t.firstLimb)
              && t.firstLimb.Length == lenAry / 4 + 1
              && t.lenAry == (lenAry / 4) * 4 + 4
              && t.lenAry == 4 * t.firstLimb.Length
              && forall k :: 0 <= k < 4 * t.firstLimb.Length ==> ElmsOf(t.firstLimb[..])[k] == 0
  {
    if allocFails {
      return null;
    }
    t := new TwoBitAry.Blank();
    if !blankAry {
      var limbs := new bv8[lenAry / 4 + 1](_ => 0);
      t.firstLimb := limbs;
      t.lenAry := (lenAry / 4) * 4 + 4;
      t.limbOn := 0;
      assert forall k :: 0 <= k < 4 * limbs.Length ==> limbs[..][k / 4] == 0;
      ElmsOfIndex(limbs[..]);
    }
  }
}
