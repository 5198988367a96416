/**
  Kermit control-character prefixing (`cmd_load.c`): the receiver's decoder as
  a two-state transducer, the sender's encoder it inverts, and the fact that
  packet boundaries do not matter.
 */
module KermitData {

  type Byte = bv8

  /** Receiver side: undo the transposition of a prefixed character. */
  function KTrans(c: Byte): Byte {
    if c & 0x60 == 0x40 then c & 0xbf
    else if c & 0x7f == 0x3f then c | 0x40
    else c
  }

  /** Decoder state: was the last character the prefix, and what has been produced. */
  datatype Decoded = Decoded(escape: bool, out: seq<Byte>)

  const START := Decoded(false, [])

  function DataChar(d: Decoded, quote: Byte, c: Byte): Decoded {
    if d.escape then Decoded(false, d.out + [KTrans(c)])
    else if c == quote then Decoded(true, d.out)
    else Decoded(false, d.out + [c])
  }

  function Feed(d: Decoded, quote: Byte, text: seq<Byte>): Decoded {
    if text == [] then d
    else DataChar(Feed(d, quote, text[..|text| - 1]), quote, text[|text| - 1])
  }

  /** Cutting the text anywhere, even between a prefix and its operand, changes nothing. */
  lemma {:induction false} FeedConcat(d: Decoded, quote: Byte, a: seq<Byte>, b: seq<Byte>)
    ensures Feed(d, quote, a + b) == Feed(Feed(d, quote, a), quote, b)
  {
    if b == [] {
      assert a + b == a;
    } else {
      assert (a + b)[..|a + b| - 1] == a + b[..|b| - 1];
      FeedConcat(d, quote, a, b[..|b| - 1]);
    }
  }

  /** Every character leaves a trace: it changes the prefix state or produces a byte. */
  lemma {:induction false} FeedChanges(d: Decoded, quote: Byte, text: seq<Byte>)
    ensures Feed(d, quote, text) == d <==> text == []
    ensures |Feed(d, quote, text).out| >= |d.out|
    ensures text != [] && !Feed(d, quote, text).escape ==> |Feed(d, quote, text).out| > |d.out|
    ensures text != [] && |Feed(d, quote, text).out| == |d.out| ==> Feed(d, quote, text).escape != d.escape
  {
    if text != [] {
      FeedChanges(d, quote, text[..|text| - 1]);
    }
  }

  // ---- the sender ----

  predicate LegalQuote(q: Byte) {
    (33 <= q && q <= 62) || (96 <= q && q <= 126)
  }

  predicate IsControl(c: Byte) {
    c & 0x7f < 0x20 || c & 0x7f == 0x7f
  }

  function EncodeByte(q: Byte, c: Byte): seq<Byte> {
    if IsControl(c) then [q, c ^ 0x40]
    else if c & 0x7f == q then [q, c]
    else [c]
  }

  function Encode(q: Byte, file: seq<Byte>): seq<Byte> {
    if file == [] then [] else Encode(q, file[..|file| - 1]) + EncodeByte(q, file[|file| - 1])
  }

  lemma ControlInverse(c: Byte)
    requires IsControl(c)
    ensures KTrans(c ^ 0x40) == c
  {
  }

  lemma QuoteInverse(q: Byte, c: Byte)
    requires LegalQuote(q) && c & 0x7f == q
    ensures KTrans(c) == c
  {
  }

  lemma PlainIsNotQuote(q: Byte, c: Byte)
    requires LegalQuote(q) && c & 0x7f != q
    ensures c != q
  {
  }

  lemma FeedOne(d: Decoded, q: Byte, c: Byte)
    ensures Feed(d, q, [c]) == DataChar(d, q, c)
  {
    assert [c][..0] == [];
    assert Feed(d, q, [c]) == DataChar(Feed(d, q, []), q, c);
  }

  lemma DecodeByte(q: Byte, c: Byte, out: seq<Byte>)
    requires LegalQuote(q)
    ensures Feed(Decoded(false, out), q, EncodeByte(q, c)) == Decoded(false, out + [c])
  {
    var d := Decoded(false, out);
    if IsControl(c) || c & 0x7f == q {
      var t := if IsControl(c) then c ^ 0x40 else c;
      assert EncodeByte(q, c) == [q] + [t];
      FeedConcat(d, q, [q], [t]);
      FeedOne(d, q, q);
      FeedOne(Decoded(true, out), q, t);
      if IsControl(c) {
        ControlInverse(c);
      } else {
        QuoteInverse(q, c);
      }
    } else {
      PlainIsNotQuote(q, c);
      FeedOne(d, q, c);
    }
  }

  /** The decoder undoes the encoder on every file and for every legal prefix character. */
  lemma {:induction false} DecodeEncode(q: Byte, file: seq<Byte>)
    requires LegalQuote(q)
    ensures Feed(START, q, Encode(q, file)) == Decoded(false, file)
  {
    if file != [] {
      hide *;
      var init, c := file[..|file| - 1], file[|file| - 1];
      DecodeEncode(q, init);
      EncodeStep(q, file);
      FeedConcat(START, q, Encode(q, init), EncodeByte(q, c));
      DecodeByte(q, c, init);
      assert file == init + [c];
    }
  }

  lemma EncodeStep(q: Byte, file: seq<Byte>)
    requires file != []
    ensures Encode(q, file) == Encode(q, file[..|file| - 1]) + EncodeByte(q, file[|file| - 1])
  {
    hide EncodeByte;
  }

  lemma EncodedByteIsPrintable(q: Byte, c: Byte, k: nat)
    requires LegalQuote(q) && k < |EncodeByte(q, c)|
    ensures EncodeByte(q, c)[k] & 0xe0 != 0
  {
  }

  /** No encoded character is one the receiver would take for a framing error. */
  lemma {:induction false} EncodedIsPrintable(q: Byte, file: seq<Byte>)
    requires LegalQuote(q)
    ensures forall k :: 0 <= k < |Encode(q, file)| ==> Encode(q, file)[k] & 0xe0 != 0
  {
    if file != [] {
      var init, c := file[..|file| - 1], file[|file| - 1];
      EncodedIsPrintable(q, init);
      forall k | 0 <= k < |Encode(q, file)| ensures Encode(q, file)[k] & 0xe0 != 0 {
        if k >= |Encode(q, init)| {
          EncodedByteIsPrintable(q, c, k - |Encode(q, init)|);
        }
      }
    }
  }
}
