/** Fixed-width symbols packed into 32-bit words, least significant field first:
    4-bit codes, 2-bit ternary symbols and 1-bit split flags. */
module Packing {
  import opened Bits
  import opened Format

  /** Field widths of the wire format. */
  type Width = b: nat | b == 1 || b == 2 || b == 4 witness 1

  /** Fields in one word. */
  function PerWord(b: Width): nat {
    if b == 1 then 32 else if b == 2 then 16 else 8
  }

  /** Bit position of field number i: b * i. */
  function BitPos(b: Width, i: nat): nat {
    if b == 1 then i else if b == 2 then 2 * i else 4 * i
  }

  /** Number of the word holding symbol i. */
  function WordOf(b: Width, i: nat): nat {
    if b == 1 then i / 32 else if b == 2 then i / 16 else i / 8
  }

  /** Field of that word holding symbol i. */
  function SlotOf(b: Width, i: nat): nat {
    if b == 1 then i % 32 else if b == 2 then i % 16 else i % 8
  }

  /** First symbol of word j. */
  function Start(b: Width, j: nat): nat {
    if b == 1 then 32 * j else if b == 2 then 16 * j else 8 * j
  }

  function FieldMask(b: Width): (r: nat)
    ensures r + 1 == Shl(1, b)
  {
    Powers();
    if b == 1 then 0x1 else if b == 2 then 0x3 else 0xF
  }

  predicate Fits(syms: seq<nat>, b: Width) {
    forall i :: 0 <= i < |syms| ==> syms[i] <= FieldMask(b)
  }

  /** (w >> (b * i)) & mask: field number i of a word. */
  function Field(w: nat, b: Width, i: nat): nat {
    And(Shr(w, BitPos(b, i)), FieldMask(b))
  }

  // ------------------------------------------------------------- one word

  /** The word holding `syms` in its lowest fields: what the OR loops build up. */
  function PackWord(syms: seq<nat>, b: Width): nat {
    if |syms| == 0 then 0 else syms[0] + Shl(PackWord(syms[1..], b), b)
  }

  lemma {:induction false} PackWordSnoc(syms: seq<nat>, c: nat, b: Width)
    ensures PackWord(syms + [c], b) == PackWord(syms, b) + Shl(c, BitPos(b, |syms|))
  {
    if |syms| == 0 {
      assert (syms + [c])[1..] == [];
      assert PackWord([], b) == 0;
      ShlMonotone(0, 0, b);
    } else {
      var rest := syms[1..];
      assert (syms + [c])[1..] == rest + [c];
      PackWordSnoc(rest, c, b);
      ShlAdd(PackWord(rest, b), Shl(c, BitPos(b, |rest|)), b);
      ShlShl(c, BitPos(b, |rest|), b);
    }
  }

  lemma {:induction false} PackWordBound(syms: seq<nat>, b: Width)
    requires Fits(syms, b)
    ensures PackWord(syms, b) < Shl(1, BitPos(b, |syms|))
  {
    if |syms| > 0 {
      var rest := syms[1..];
      PackWordBound(rest, b);
      ShlMonotone(PackWord(rest, b), Shl(1, BitPos(b, |rest|)), b);
      ShlShl(1, BitPos(b, |rest|), b);
    }
  }

  /** OR-ing the next symbol into its place appends it. */
  lemma PackWordOr(syms: seq<nat>, c: nat, b: Width)
    requires Fits(syms, b)
    ensures PackWord(syms + [c], b) == Or(PackWord(syms, b), Shl(c, BitPos(b, |syms|)))
  {
    PackWordSnoc(syms, c, b);
    PackWordBound(syms, b);
    OrDisjoint(PackWord(syms, b), c, BitPos(b, |syms|));
  }

  /** Extraction inverts packing, and reads zero past the packed symbols. */
  lemma {:induction false} FieldOfPackWord(syms: seq<nat>, b: Width, i: nat)
    requires Fits(syms, b)
    ensures Field(PackWord(syms, b), b, i) == if i < |syms| then syms[i] else 0
  {
    if |syms| == 0 {
      ShrZero(BitPos(b, i));
    } else {
      var high := PackWord(syms[1..], b);
      if i == 0 {
        AndLow(syms[0], high, b);
      } else {
        ShrSplit(syms[0], high, b);
        ShrShr(PackWord(syms, b), b, BitPos(b, i - 1));
        FieldOfPackWord(syms[1..], b, i - 1);
      }
    }
  }

  lemma FieldFits(w: nat, b: Width, i: nat)
    ensures Field(w, b, i) <= FieldMask(b)
  {
    var low := SplitAt(Shr(w, BitPos(b, i)), b);
    AndLow(low, Shr(Shr(w, BitPos(b, i)), b), b);
  }

  function Fields(w: nat, b: Width, n: nat): (r: seq<nat>)
    ensures |r| == n && Fits(r, b)
  {
    var r := seq(n, i requires i >= 0 => Field(w, b, i));
    assert forall i :: 0 <= i < n ==> r[i] <= FieldMask(b) by {
      forall i | 0 <= i < n ensures r[i] <= FieldMask(b) { FieldFits(w, b, i); }
    }
    r
  }

  /** The fields above the lowest are the fields of the shifted word. */
  lemma FieldsTail(w: nat, b: Width, n: nat)
    requires n > 0
    ensures Fields(w, b, n)[1..] == Fields(Shr(w, b), b, n - 1)
  {
    forall i | 0 <= i < n - 1
      ensures Field(w, b, i + 1) == Field(Shr(w, b), b, i)
    {
      ShrShr(w, b, BitPos(b, i));
    }
  }

  lemma HighPartBound(w: nat, b: Width, n: nat)
    requires n > 0 && w < Shl(1, BitPos(b, n))
    ensures Shr(w, b) < Shl(1, BitPos(b, n - 1))
  {
    var low := SplitAt(w, b);
    var top := BitPos(b, n - 1);
    ShlShl(1, top, b);
    ShlMonotone(Shl(1, top), Shr(w, b), b);
  }

  /** Packing inverts extraction: a word is determined by its fields. */
  lemma {:induction false} PackWordOfFields(w: nat, b: Width, n: nat)
    requires w < Shl(1, BitPos(b, n))
    ensures PackWord(Fields(w, b, n), b) == w
    decreases n
  {
    if n > 0 {
      var low := SplitAt(w, b);
      AndLow(low, Shr(w, b), b);
      HighPartBound(w, b, n);
      PackWordOfFields(Shr(w, b), b, n - 1);
      FieldsTail(w, b, n);
    }
  }

  // ---------------------------------------------------------- word arrays

  /** Symbols number lo to hi - 1, as far as there are any. */
  function Chunk(syms: seq<nat>, lo: nat, hi: nat): seq<nat>
    requires lo <= hi
  {
    syms[if lo <= |syms| then lo else |syms|..if hi <= |syms| then hi else |syms|]
  }

  /** The symbols of word j. */
  function WordChunk(syms: seq<nat>, b: Width, j: nat): (r: seq<nat>)
    ensures |r| <= PerWord(b)
    ensures Fits(syms, b) ==> Fits(r, b)
  {
    Chunk(syms, Start(b, j), Start(b, j) + PerWord(b))
  }

  lemma ShortWord(n: nat, b: Width)
    requires n <= PerWord(b)
    ensures Shl(1, BitPos(b, n)) <= UINT32_LIMIT
  {
    Powers();
    var k := 32 - BitPos(b, n);
    ShlShl(1, k, BitPos(b, n));
    ShlMonotone(0, 1, k);
    ShlMonotone(1, Shl(1, k), BitPos(b, n));
  }

  function PackedWord(syms: seq<nat>, b: Width, j: nat): uint32
    requires Fits(syms, b)
  {
    var chunk := WordChunk(syms, b, j);
    PackWordBound(chunk, b);
    ShortWord(|chunk|, b);
    PackWord(chunk, b)
  }

  /** The payload words of a symbol sequence, zero past its end. */
  function PackWords(syms: seq<nat>, b: Width, count: nat): (r: seq<uint32>)
    requires Fits(syms, b)
    ensures |r| == count
  {
    seq(count, j requires 0 <= j < count => PackedWord(syms, b, j))
  }

  /** Appending a symbol extends the last chunk and leaves the others. */
  lemma ChunkSnoc(syms: seq<nat>, c: nat, b: Width, j: nat)
    ensures WordChunk(syms + [c], b, j) ==
              WordChunk(syms, b, j) + if j == WordOf(b, |syms|) then [c] else []
    ensures j == WordOf(b, |syms|) ==> |WordChunk(syms, b, j)| == SlotOf(b, |syms|)
  {
  }

  /** One step of a packing loop: payload[i / per] |= sym << (b * (i % per)). */
  lemma PackStep(syms: seq<nat>, c: nat, b: Width, j: nat)
    requires Fits(syms + [c], b) && Fits(syms, b)
    ensures PackedWord(syms + [c], b, j) ==
              if j == WordOf(b, |syms|)
              then Or(PackedWord(syms, b, j), Shl(c, BitPos(b, SlotOf(b, |syms|))))
              else PackedWord(syms, b, j)
  {
    ChunkSnoc(syms, c, b, j);
    if j == WordOf(b, |syms|) {
      PackWordOr(WordChunk(syms, b, j), c, b);
    } else {
      assert WordChunk(syms + [c], b, j) == WordChunk(syms, b, j);
    }
  }

  lemma ChunkIndex(syms: seq<nat>, b: Width, i: nat)
    ensures var chunk := WordChunk(syms, b, WordOf(b, i));
            && (SlotOf(b, i) < |chunk| <==> i < |syms|)
            && (i < |syms| ==> chunk[SlotOf(b, i)] == syms[i])
  {
  }

  /** Reading symbol i of the packed words gives symbol i, or zero past the end. */
  lemma FieldOfPackedWord(syms: seq<nat>, b: Width, i: nat)
    requires Fits(syms, b)
    ensures Field(PackedWord(syms, b, WordOf(b, i)), b, SlotOf(b, i)) == if i < |syms| then syms[i] else 0
  {
    ChunkIndex(syms, b, i);
    FieldOfPackWord(WordChunk(syms, b, WordOf(b, i)), b, SlotOf(b, i));
  }

  /** All fields of a word sequence. */
  function AllFields(words: seq<uint32>, b: Width): (r: seq<nat>)
    ensures |r| == Start(b, |words|) && Fits(r, b)
  {
    var r := seq(Start(b, |words|), i requires 0 <= i < Start(b, |words|) =>
      Field(words[WordOf(b, i)], b, SlotOf(b, i)));
    assert forall i :: 0 <= i < |r| ==> r[i] <= FieldMask(b) by {
      forall i | 0 <= i < |r| ensures r[i] <= FieldMask(b) {
        FieldFits(words[WordOf(b, i)], b, SlotOf(b, i));
      }
    }
    r
  }

  lemma FieldIndex(b: Width, j: nat, i: nat)
    requires i < PerWord(b)
    ensures WordOf(b, Start(b, j) + i) == j && SlotOf(b, Start(b, j) + i) == i
  {
  }

  lemma FieldsOfWord(words: seq<uint32>, b: Width, j: nat)
    requires j < |words|
    ensures WordChunk(AllFields(words, b), b, j) == Fields(words[j], b, PerWord(b))
  {
    var start := Start(b, j);
    var chunk := AllFields(words, b)[start..start + PerWord(b)];
    forall i | 0 <= i < PerWord(b)
      ensures chunk[i] == Field(words[j], b, i)
    {
      FieldIndex(b, j, i);
    }
    assert chunk == WordChunk(AllFields(words, b), b, j);
  }

  /** Words are canonical: packing their own fields gives them back. */
  lemma PackWordsOfFields(words: seq<uint32>, b: Width)
    ensures PackWords(AllFields(words, b), b, |words|) == words
  {
    Powers();
    forall j | 0 <= j < |words|
      ensures PackedWord(AllFields(words, b), b, j) == words[j]
    {
      FieldsOfWord(words, b, j);
      PackWordOfFields(words[j], b, PerWord(b));
    }
  }
}
