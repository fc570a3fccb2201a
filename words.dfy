/**
 * Bytes and 32-bit words as the add-on handles them on an x86 host:
 * a `float` or `unsigned int` read or written through a pointer cast
 * is four bytes in little-endian order.
 */
module Words {

  type Byte = bv8
  type Word = bv32

  /** The four bytes an x86 host stores for `w`, lowest byte first. */
  function WordBytes(w: Word): (bs: seq<Byte>)
    ensures |bs| == 4
  {
    [(w & 0xFF) as Byte, ((w >> 8) & 0xFF) as Byte, ((w >> 16) & 0xFF) as Byte, (w >> 24) as Byte]
  }

  /** The word whose little-endian bytes are b0, b1, b2, b3. */
  function PackWord(b0: Byte, b1: Byte, b2: Byte, b3: Byte): (w: Word)
    ensures WordBytes(w) == [b0, b1, b2, b3]
  {
    (b0 as Word) | ((b1 as Word) << 8) | ((b2 as Word) << 16) | ((b3 as Word) << 24)
  }

  /** Packing the bytes of a word gives the word back: WordBytes is injective. */
  lemma PackWordBytes(w: Word)
    ensures PackWord(WordBytes(w)[0], WordBytes(w)[1], WordBytes(w)[2], WordBytes(w)[3]) == w
  {
  }

  lemma WordBytesInjective(v: Word, w: Word)
    requires WordBytes(v) == WordBytes(w)
    ensures v == w
  {
  }

  /** The bytes of a sequence of words, each word in little-endian order. */
  function Flatten(ws: seq<Word>): (bs: seq<Byte>)
    ensures |bs| == 4 * |ws|
  {
    if ws == [] then [] else WordBytes(ws[0]) + Flatten(ws[1..])
  }

  lemma {:induction false} FlattenAt(ws: seq<Word>, i: nat, k: nat)
    requires i < |ws| && k < 4
    ensures Flatten(ws)[4 * i + k] == WordBytes(ws[i])[k]
  {
    if i > 0 {
      FlattenAt(ws[1..], i - 1, k);
    }
  }

  /** `n` copies of `bs`, back to back. */
  function Repeat(bs: seq<Byte>, n: nat): (r: seq<Byte>)
    ensures |r| == |bs| * n
  {
    if n == 0 then [] else Repeat(bs, n - 1) + bs
  }

  /** Slot `i` of a repetition holds the repeated pattern. */
  lemma {:induction false} RepeatSlot(bs: seq<Byte>, n: nat, i: nat)
    requires i < n
    ensures |bs| * i + |bs| <= |Repeat(bs, n)|
    ensures Repeat(bs, n)[|bs| * i .. |bs| * i + |bs|] == bs
  {
    var r := Repeat(bs, n);
    assert r == Repeat(bs, n - 1) + bs;
    if i < n - 1 {
      RepeatSlot(bs, n - 1, i);
      assert |bs| * i + |bs| <= |Repeat(bs, n - 1)|;
      assert r[|bs| * i .. |bs| * i + |bs|] == Repeat(bs, n - 1)[|bs| * i .. |bs| * i + |bs|];
    } else {
      assert |bs| * i == |Repeat(bs, n - 1)|;
    }
  }
}
