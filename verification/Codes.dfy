/** Quantized codes and their 32-bit word payloads: the packing loops of the exporter
    and the code extraction of the reference decoder. */
module Codes {
  import opened Bits
  import opened Format
  import opened Packing

  predicate IsCode(mode: CodeMode, code: int) {
    if mode.FP4_AFFINE? then -8 <= code <= 7 else -1 <= code <= 1
  }

  predicate AreCodes(mode: CodeMode, codes: seq<int>) {
    forall i :: 0 <= i < |codes| ==> IsCode(mode, codes[i])
  }

  function FieldWidth(mode: CodeMode): Width {
    if mode.FP4_AFFINE? then 4 else 2
  }

  function CodesPerWord(mode: CodeMode): nat {
    if mode.FP4_AFFINE? then 8 else 16
  }

  // ------------------------------------------------------------- symbols

  /** code & 0xF, as Python masks a negative integer. */
  function Nibble(code: int): nat {
    code % 16
  }

  function TernaryBits(code: int): nat {
    if code == 0 then 0 else if code == 1 then 1 else 2
  }

  function Symbol(mode: CodeMode, code: int): nat {
    if mode.FP4_AFFINE? then Nibble(code) else TernaryBits(code)
  }

  function Symbols(mode: CodeMode, codes: seq<int>): (r: seq<nat>)
    ensures |r| == |codes|
    ensures Fits(r, FieldWidth(mode))
  {
    seq(|codes|, i requires 0 <= i < |codes| => Symbol(mode, codes[i]))
  }

  function Int4ToInt(nib: nat): int {
    var n := And(nib, 0xF);
    if n < 8 then n else n - 16
  }

  function Sym2ToTernary(sym: nat): int {
    var s := And(sym, 0x3);
    if s == 1 then 1 else if s == 2 then -1 else 0
  }

  function DecodeSymbol(mode: CodeMode, bits: nat): int {
    if mode.FP4_AFFINE? then Int4ToInt(bits) else Sym2ToTernary(bits)
  }

  // ------------------------------------------------------------- payloads

  /** The payload of a code sequence, as the packing loops build it. */
  function Payload(mode: CodeMode, codes: seq<int>, count: nat): (r: seq<uint32>)
    ensures |r| == count
  {
    PackWords(Symbols(mode, codes), FieldWidth(mode), count)
  }

  /** The codes a decoder reads from payload words. */
  function CodesOf(words: seq<uint32>, mode: CodeMode, n: nat): (r: seq<int>)
    requires n <= |words| * CodesPerWord(mode)
    ensures |r| == n
  {
    seq(n, i requires 0 <= i < n =>
      DecodeSymbol(mode, Shr(words[i / CodesPerWord(mode)], FieldWidth(mode) * (i % CodesPerWord(mode)))))
  }

  /** Decoding sees only the masked field of a shifted word. */
  lemma DecodeField(mode: CodeMode, w: nat, i: nat, sym: nat)
    requires Field(w, FieldWidth(mode), i) == sym
    ensures DecodeSymbol(mode, Shr(w, FieldWidth(mode) * i)) ==
              if mode.FP4_AFFINE? then (if sym < 8 then sym else sym - 16)
              else if sym == 1 then 1 else if sym == 2 then -1 else 0
  {
  }

  lemma PlaceOf(mode: CodeMode, count: nat, i: nat)
    requires i < count * CodesPerWord(mode)
    ensures i / CodesPerWord(mode) == WordOf(FieldWidth(mode), i) < count
    ensures i % CodesPerWord(mode) == SlotOf(FieldWidth(mode), i)
  {
  }

  /** Field i of a payload is the symbol of code i, or zero behind the last code. */
  lemma PayloadField(mode: CodeMode, codes: seq<int>, count: nat, i: nat)
    requires |codes| <= count * CodesPerWord(mode) && i < count * CodesPerWord(mode)
    ensures i / CodesPerWord(mode) < count
    ensures Field(Payload(mode, codes, count)[i / CodesPerWord(mode)], FieldWidth(mode), i % CodesPerWord(mode))
            == if i < |codes| then Symbol(mode, codes[i]) else 0
  {
    PlaceOf(mode, count, i);
    hide WordOf, SlotOf, Field, CodesPerWord, FieldWidth, PackedWord, Symbol;
    FieldOfPackedWord(Symbols(mode, codes), FieldWidth(mode), i);
  }

  lemma SymbolIs(mode: CodeMode, code: int)
    requires IsCode(mode, code)
    ensures Symbol(mode, code) == if code >= 0 then code else if mode.FP4_AFFINE? then code + 16 else 2
  {
  }

  lemma CodeRoundTrip(mode: CodeMode, codes: seq<int>, count: nat, i: nat)
    requires AreCodes(mode, codes) && i < |codes| <= count * CodesPerWord(mode)
    ensures i / CodesPerWord(mode) < count
    ensures DecodeSymbol(mode, Shr(Payload(mode, codes, count)[i / CodesPerWord(mode)],
                                   FieldWidth(mode) * (i % CodesPerWord(mode)))) == codes[i]
  {
    hide Field, DecodeSymbol, Shr, Payload, Symbol, FieldWidth, CodesPerWord;
    PayloadField(mode, codes, count, i);
    SymbolIs(mode, codes[i]);
    DecodeField(mode, Payload(mode, codes, count)[i / CodesPerWord(mode)], i % CodesPerWord(mode),
                Symbol(mode, codes[i]));
  }

  /** The decoder reads exactly the codes that were packed, in both modes. */
  lemma CodesRoundTrip(mode: CodeMode, codes: seq<int>, count: nat)
    requires AreCodes(mode, codes) && |codes| <= count * CodesPerWord(mode)
    ensures CodesOf(Payload(mode, codes, count), mode, |codes|) == codes
  {
    forall i | 0 <= i < |codes|
      ensures CodesOf(Payload(mode, codes, count), mode, |codes|)[i] == codes[i]
    {
      CodeRoundTrip(mode, codes, count, i);
    }
  }

  /** A payload longer than its codes is zero in the words no code reaches. */
  lemma PayloadTail(mode: CodeMode, codes: seq<int>, count: nat, j: nat)
    requires j < count && |codes| <= j * CodesPerWord(mode)
    ensures Payload(mode, codes, count)[j] == 0
  {
    assert WordChunk(Symbols(mode, codes), FieldWidth(mode), j) == [];
  }

  lemma Fp4CodeCanonical(words: seq<uint32>, i: nat)
    requires i < 8 * |words|
    ensures var code := CodesOf(words, FP4_AFFINE, 8 * |words|)[i];
            IsCode(FP4_AFFINE, code) && Nibble(code) == AllFields(words, 4)[i]
  {
    FieldFits(words[i / 8], 4, i % 8);
    DecodeField(FP4_AFFINE, words[i / 8], i % 8, Field(words[i / 8], 4, i % 8));
  }

  /** FP4 payloads are canonical: re-encoding decoded FP4 codes gives the words back. */
  lemma Fp4PayloadCanonical(words: seq<uint32>)
    ensures AreCodes(FP4_AFFINE, CodesOf(words, FP4_AFFINE, 8 * |words|))
    ensures Payload(FP4_AFFINE, CodesOf(words, FP4_AFFINE, 8 * |words|), |words|) == words
  {
    var codes := CodesOf(words, FP4_AFFINE, 8 * |words|);
    forall i | 0 <= i < |codes|
      ensures IsCode(FP4_AFFINE, codes[i]) && Nibble(codes[i]) == AllFields(words, 4)[i]
    {
      Fp4CodeCanonical(words, i);
    }
    assert Symbols(FP4_AFFINE, codes) == AllFields(words, 4);
    PackWordsOfFields(words, 4);
  }

  lemma T158CodeCanonical(words: seq<uint32>, i: nat)
    requires i < 16 * |words|
    ensures var code, sym := CodesOf(words, T158_AFFINE, 16 * |words|)[i], AllFields(words, 2)[i];
            IsCode(T158_AFFINE, code) && sym <= 3 && TernaryBits(code) == if sym == 3 then 0 else sym
  {
    FieldFits(words[i / 16], 2, i % 16);
    DecodeField(T158_AFFINE, words[i / 16], i % 16, Field(words[i / 16], 2, i % 16));
  }

  /** T158 payloads are canonical exactly when the reserved symbol 11 occurs nowhere. */
  lemma T158PayloadCanonical(words: seq<uint32>)
    ensures var codes := CodesOf(words, T158_AFFINE, 16 * |words|);
            && AreCodes(T158_AFFINE, codes)
            && (Payload(T158_AFFINE, codes, |words|) == words <==>
                forall i :: 0 <= i < 16 * |words| ==> AllFields(words, 2)[i] != 3)
  {
    var codes, fields := CodesOf(words, T158_AFFINE, 16 * |words|), AllFields(words, 2);
    forall i | 0 <= i < |codes|
      ensures IsCode(T158_AFFINE, codes[i]) && fields[i] <= 3
      ensures TernaryBits(codes[i]) == if fields[i] == 3 then 0 else fields[i]
    {
      T158CodeCanonical(words, i);
    }
    var syms := Symbols(T158_AFFINE, codes);
    if forall i :: 0 <= i < 16 * |words| ==> fields[i] != 3 {
      assert syms == fields;
      PackWordsOfFields(words, 2);
    }
    if Payload(T158_AFFINE, codes, |words|) == words {
      forall i | 0 <= i < |codes|
        ensures fields[i] == syms[i] != 3
      {
        FieldOfPackedWord(syms, 2, i);
      }
    }
  }

  /** Such a symbol does occur in payloads the decoder accepts: it reads as zero, like the symbol 00. */
  lemma T158PayloadNotCanonical()
    ensures CodesOf([3], T158_AFFINE, 16) == CodesOf([0], T158_AFFINE, 16)
  {
    forall i | 0 <= i < 16
      ensures CodesOf([3], T158_AFFINE, 16)[i] == 0 == CodesOf([0], T158_AFFINE, 16)[i]
    {
      ShrZero(2 * i);
      if i > 0 {
        ShrShr(3, 2, 2 * i - 2);
        assert Shr(3, 2) == Shr(1, 1) == 0;
        ShrZero(2 * i - 2);
      }
      LowMask(3, 2, 4);
    }
  }

  // ------------------------------------------------------------ bit places

  /** The symbol at place i of a word: bits 4 * i to 4 * i + 3, or 2 * i and 2 * i + 1. */
  lemma PlaceIs(w: nat, mode: CodeMode, i: nat)
    ensures Field(w, FieldWidth(mode), i) ==
              if mode.FP4_AFFINE? then w / Power2(4 * i) % 16 else w / Power2(2 * i) % 4
  {
    hide And, Shr;
    var b: nat := FieldWidth(mode);
    ShiftsAre(w, b * i);
    Powers();
    LowMask(w / Power2(b * i), b, if mode.FP4_AFFINE? then 16 else 4);
  }

  /** Decoding in numbers: eight hexadecimal digits a word from the lowest up, 8 to 15 standing for -8 to
      -1; sixteen base-4 digits a word for ternary, of which 2 stands for -1 and 3 for 0. */
  lemma CodeBits(words: seq<uint32>, n: nat, i: nat)
    ensures i < n <= 8 * |words| ==>
              var d := words[i / 8] / Power2(4 * (i % 8)) % 16;
              CodesOf(words, FP4_AFFINE, n)[i] == if d < 8 then d else d - 16
    ensures i < n <= 16 * |words| ==>
              var d := words[i / 16] / Power2(2 * (i % 16)) % 4;
              CodesOf(words, T158_AFFINE, n)[i] == if d == 1 then 1 else if d == 2 then -1 else 0
  {
    hide And, Shr, Field, DecodeSymbol, Power2;
    if i < n <= 8 * |words| {
      PlaceIs(words[i / 8], FP4_AFFINE, i % 8);
      DecodeField(FP4_AFFINE, words[i / 8], i % 8, Field(words[i / 8], 4, i % 8));
    }
    if i < n <= 16 * |words| {
      PlaceIs(words[i / 16], T158_AFFINE, i % 16);
      DecodeField(T158_AFFINE, words[i / 16], i % 16, Field(words[i / 16], 2, i % 16));
    }
  }

  /** Encoding in numbers: place i of the payload holds code i, and what is beyond the codes is zero. */
  lemma PayloadBits(mode: CodeMode, codes: seq<int>, count: nat, i: nat)
    requires AreCodes(mode, codes) && |codes| <= count * CodesPerWord(mode) && i < count * CodesPerWord(mode)
    ensures i / CodesPerWord(mode) < count
    ensures var w := Payload(mode, codes, count)[i / CodesPerWord(mode)];
            if mode.FP4_AFFINE? then
              w / Power2(4 * (i % 8)) % 16
              == (if i >= |codes| then 0 else if codes[i] < 0 then codes[i] + 16 else codes[i])
            else
              w / Power2(2 * (i % 16)) % 4 == (if i >= |codes| then 0 else if codes[i] < 0 then 2 else codes[i])
  {
    hide Field, Power2, Payload, Symbol;
    PayloadField(mode, codes, count, i);
    PlaceIs(Payload(mode, codes, count)[i / CodesPerWord(mode)], mode, i % CodesPerWord(mode));
    if i < |codes| { SymbolIs(mode, codes[i]); }
  }

  // -------------------------------------------------- the loops themselves

  /** The FP4 packing loop over a fresh zero payload. */
  method PackFp4Codes(codes: seq<int>, count: nat) returns (payload: array<uint32>)
    requires |codes| <= count * 8
    ensures fresh(payload) && payload[..] == Payload(FP4_AFFINE, codes, count)
  {
    payload := new uint32[count](_ => 0);
    EmptyPayload(FP4_AFFINE, count);
    for index := 0 to |codes|
      invariant payload[..] == Payload(FP4_AFFINE, codes[..index], count)
    {
      var code := Nibble(codes[index]);
      var word := index / 8;
      var shift := 4 * (index % 8);
      PayloadStep(FP4_AFFINE, codes, count, index);
      payload[word] := Or(payload[word], Shl(code, shift));
      assert payload[..] == Payload(FP4_AFFINE, codes[..index + 1], count);
    }
    assert codes[..|codes|] == codes;
  }

  /** The ternary packing loop, into a zeroed payload of the caller. */
  method PackTernaryCodes(codes: seq<int>, payload: array<uint32>)
    requires |codes| <= payload.Length * 16
    requires forall j :: 0 <= j < payload.Length ==> payload[j] == 0
    modifies payload
    ensures payload[..] == Payload(T158_AFFINE, codes, payload.Length)
  {
    EmptyPayload(T158_AFFINE, payload.Length);
    for index := 0 to |codes|
      invariant payload[..] == Payload(T158_AFFINE, codes[..index], payload.Length)
    {
      var bits := TernaryBits(codes[index]);
      var word := index / 16;
      var shift := 2 * (index % 16);
      PayloadStep(T158_AFFINE, codes, payload.Length, index);
      payload[word] := Or(payload[word], Shl(bits, shift));
      assert payload[..] == Payload(T158_AFFINE, codes[..index + 1], payload.Length);
    }
    assert codes[..|codes|] == codes;
  }

  lemma EmptyPayload(mode: CodeMode, count: nat)
    ensures Payload(mode, [], count) == seq(count, _ => 0)
  {
    forall j | 0 <= j < count
      ensures Payload(mode, [], count)[j] == 0
    {
      PayloadTail(mode, [], count, j);
    }
  }

  lemma PayloadStep(mode: CodeMode, codes: seq<int>, count: nat, index: nat)
    requires index < |codes| <= count * CodesPerWord(mode)
    ensures var w := index / CodesPerWord(mode);
            var before := Payload(mode, codes[..index], count);
            var after := Payload(mode, codes[..index + 1], count);
            && w < count
            && after[w] == Or(before[w], Shl(Symbol(mode, codes[index]),
                                             FieldWidth(mode) * (index % CodesPerWord(mode))))
            && forall j :: 0 <= j < count && j != w ==> after[j] == before[j]
  {
    assert Symbols(mode, codes[..index + 1]) ==
           Symbols(mode, codes[..index]) + [Symbol(mode, codes[index])];
    forall j | 0 <= j < count
      ensures Payload(mode, codes[..index + 1], count)[j] ==
                if j == index / CodesPerWord(mode)
                then Or(Payload(mode, codes[..index], count)[j],
                        Shl(Symbol(mode, codes[index]), FieldWidth(mode) * (index % CodesPerWord(mode))))
                else Payload(mode, codes[..index], count)[j]
    {
      PackStep(Symbols(mode, codes[..index]), Symbol(mode, codes[index]), FieldWidth(mode), j);
    }
  }

  /** The extraction loop of the decoder. */
  method DecodeCodes(words: seq<uint32>, mode: CodeMode, n: nat) returns (codes: array<int>)
    requires n <= |words| * CodesPerWord(mode)
    ensures fresh(codes) && codes[..] == CodesOf(words, mode, n)
  {
    codes := new int[n];
    if mode.FP4_AFFINE? {
      for i := 0 to n
        invariant codes[..i] == CodesOf(words, mode, n)[..i]
      {
        var word := words[i / 8];
        var shift := 4 * (i % 8);
        codes[i] := Int4ToInt(Shr(word, shift));
      }
    } else {
      for i := 0 to n
        invariant codes[..i] == CodesOf(words, mode, n)[..i]
      {
        var word := words[i / 16];
        var shift := 2 * (i % 16);
        codes[i] := Sym2ToTernary(Shr(word, shift));
      }
    }
  }
}
