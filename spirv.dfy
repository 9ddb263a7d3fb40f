/**
 * The physical layout of a SPIR-V module, as given by section 2.3 of the
 * SPIR-V Specification ("Physical Layout of a SPIR-V Module and
 * Instruction"), and a reference decoding of the words after the header
 * into a list of instructions.
 *
 * A module is a sequence of 32-bit words: a five-word header (magic number,
 * version, generator, id bound, schema) followed by instructions.  The first
 * word of an instruction holds its word count in the high 16 bits and its
 * opcode in the low 16 bits; the word count includes that first word.
 */
module SpirV {

  datatype Option<+T> = None | Some(value: T)

  /** A `uint32_t` word of the module. */
  type Word = x: int | 0 <= x < 0x1_0000_0000

  /** The 16-bit opcode field of an instruction's first word. */
  type Opcode = x: int | 0 <= x < 0x1_0000

  /** Section 3.1 of the SPIR-V Specification. */
  const MAGIC_NUMBER: Word := 0x0723_0203
  const HEADER_SIZE: nat := 5
  /** Header word 3 holds the id bound. */
  const BOUND_INDEX: nat := 3
  /** `1 << spv::WordCountShift`: the weight of the word-count field. */
  const WORD_COUNT_UNIT: nat := 0x1_0000

  // Opcodes (from the "Instructions" reference of the SPIR-V Specification) used by this model.
  const OP_SOURCE_CONTINUED: Opcode := 2
  const OP_SOURCE: Opcode := 3
  const OP_SOURCE_EXTENSION: Opcode := 4
  const OP_NAME: Opcode := 5
  const OP_MEMBER_NAME: Opcode := 6
  const OP_STRING: Opcode := 7
  const OP_LINE: Opcode := 8
  const OP_EXTENSION: Opcode := 10
  const OP_EXT_INST_IMPORT: Opcode := 11
  const OP_MEMORY_MODEL: Opcode := 14
  const OP_ENTRY_POINT: Opcode := 15
  const OP_EXECUTION_MODE: Opcode := 16
  const OP_CAPABILITY: Opcode := 17
  const OP_DECORATE: Opcode := 71
  const OP_NO_LINE: Opcode := 317
  const OP_MODULE_PROCESSED: Opcode := 330
  const OP_EXECUTION_MODE_ID: Opcode := 331

  /** `spv::DecorationLocation`. */
  const DECORATION_LOCATION: Word := 30

  /** The word count held in the high half of a first word (`w >> 16`). */
  function WordCount(w: Word): (n: nat)
    ensures n < WORD_COUNT_UNIT
  {
    w / WORD_COUNT_UNIT
  }

  /** The opcode held in the low half of a first word (`w & 0xFFFF`). */
  function OpcodeOf(w: Word): Opcode
  {
    w % WORD_COUNT_UNIT
  }

  /**
   * `(wordCount << 16) | opcode` kept to 32 bits: a word count that does not
   * fit the 16-bit field loses its high bits.
   */
  function FirstWord(wordCount: nat, opcode: Opcode): (w: Word)
    ensures WordCount(w) == wordCount % WORD_COUNT_UNIT
    ensures OpcodeOf(w) == opcode
  {
    (wordCount % WORD_COUNT_UNIT) * WORD_COUNT_UNIT + opcode
  }

  /** Splitting a word into its two fields and joining them again gives it back. */
  lemma FirstWordOfFields(w: Word)
    ensures FirstWord(WordCount(w), OpcodeOf(w)) == w
  {
  }

  /** The instruction that a stretch of words denotes: its opcode and its argument words. */
  datatype Inst = Inst(opcode: Opcode, args: seq<Word>)

  /** The word count of `i` (its arguments plus the first word) fits the 16-bit field. */
  predicate Fits(i: Inst)
  {
    |i.args| + 1 < WORD_COUNT_UNIT
  }

  predicate AllFit(insts: seq<Inst>)
  {
    forall k :: 0 <= k < |insts| ==> Fits(insts[k])
  }

  /** The words of one instruction: its first word, then its arguments. */
  function EncodeInst(i: Inst): (ws: seq<Word>)
    ensures |ws| == |i.args| + 1
    ensures ws[1..] == i.args
    ensures Fits(i) ==> WordCount(ws[0]) == |ws| && OpcodeOf(ws[0]) == i.opcode
  {
    [FirstWord(|i.args| + 1, i.opcode)] + i.args
  }

  /** Overwriting argument `a` of an instruction overwrites word `1 + a` of its encoding. */
  lemma EncodeInstSetArg(i: Inst, a: nat, v: Word)
    requires a < |i.args|
    ensures EncodeInst(Inst(i.opcode, i.args[a := v])) == EncodeInst(i)[1 + a := v]
  {
    var e, e' := EncodeInst(i), EncodeInst(Inst(i.opcode, i.args[a := v]));
    assert e'[0] == e[0];
    forall j | 1 <= j < |e| ensures e'[j] == e[1 + a := v][j] {
      assert e'[j] == e'[1..][j - 1] && e[j] == e[1..][j - 1];
    }
  }

  /** The words of a list of instructions, laid out one after the other. */
  function Encode(insts: seq<Inst>): seq<Word>
  {
    if insts == [] then [] else EncodeInst(insts[0]) + Encode(insts[1..])
  }

  /**
   * Decodes the words that follow the header into instructions, by reading
   * each first word's word count.  It fails on a word count of zero and on
   * an instruction that runs past the end of the words.
   */
  function ParseBody(body: seq<Word>): Option<seq<Inst>>
    decreases |body|
  {
    if |body| == 0 then Some([])
    else
      var n := WordCount(body[0]);
      if n == 0 || |body| < n then None
      else
        match ParseBody(body[n..])
        case None => None
        case Some(rest) =>
          Some([Inst(OpcodeOf(body[0]), body[1..n])] + rest)
  }

  /** Every decoded word count fits the 16-bit field. */
  lemma {:induction false} ParseFits(body: seq<Word>)
    requires ParseBody(body).Some?
    ensures AllFit(ParseBody(body).value)
    decreases |body|
  {
    if |body| > 0 {
      var n := WordCount(body[0]);
      var rest := ParseBody(body[n..]).value;
      ParseFits(body[n..]);
      var insts := ParseBody(body).value;
      assert insts == [Inst(OpcodeOf(body[0]), body[1..n])] + rest;
      forall j | 0 <= j < |insts| ensures Fits(insts[j]) {
        if j > 0 {
          assert insts[j] == rest[j - 1];
        }
      }
    }
  }

  /** Whatever decodes re-encodes to the very same words, and every decoded word count fits. */
  lemma {:induction false} EncodeParse(body: seq<Word>)
    requires ParseBody(body).Some?
    ensures Encode(ParseBody(body).value) == body && AllFit(ParseBody(body).value)
    decreases |body|
  {
    ParseFits(body);
    if |body| > 0 {
      var n := WordCount(body[0]);
      var rest := ParseBody(body[n..]).value;
      EncodeParse(body[n..]);
      var i := Inst(OpcodeOf(body[0]), body[1..n]);
      FirstWordOfFields(body[0]);
      assert EncodeInst(i) == body[..n];
      EncodeCons(i, rest);
      assert body == body[..n] + body[n..];
    }
  }

  lemma {:induction false} EncodeAppend(a: seq<Inst>, b: seq<Inst>)
    ensures Encode(a + b) == Encode(a) + Encode(b)
    decreases |a|
  {
    if a == [] {
      assert a + b == b;
    } else {
      assert (a + b)[1..] == a[1..] + b;
      EncodeAppend(a[1..], b);
    }
  }

  /** Decoding one instruction that fits, followed by other words. */
  lemma ParseStep(x: Inst, tail: seq<Word>)
    requires Fits(x)
    ensures ParseBody(tail).None? ==> ParseBody(EncodeInst(x) + tail).None?
    ensures ParseBody(tail).Some? ==> ParseBody(EncodeInst(x) + tail) == Some([x] + ParseBody(tail).value)
  {
    var e := EncodeInst(x);
    var ws := e + tail;
    assert WordCount(ws[0]) == |e| && OpcodeOf(ws[0]) == x.opcode;
    assert ws[|e|..] == tail;
    assert ws[1..|e|] == x.args;
  }

  /**
   * Decoding words that begin with the encoding of instructions that fit
   * yields those instructions, followed by whatever the rest decodes to.
   */
  lemma {:induction false} ParseAppend(insts: seq<Inst>, rest: seq<Word>)
    requires AllFit(insts)
    ensures ParseBody(rest).None? ==> ParseBody(Encode(insts) + rest).None?
    ensures ParseBody(rest).Some? ==> ParseBody(Encode(insts) + rest) == Some(insts + ParseBody(rest).value)
    decreases |insts|
  {
    if insts == [] {
      assert Encode(insts) + rest == rest;
      if ParseBody(rest).Some? {
        assert insts + ParseBody(rest).value == ParseBody(rest).value;
      }
    } else {
      var tail := Encode(insts[1..]) + rest;
      assert Encode(insts) + rest == EncodeInst(insts[0]) + tail;
      assert Fits(insts[0]);
      assert AllFit(insts[1..]) by {
        forall k | 0 <= k < |insts[1..]| ensures Fits(insts[1..][k]) {
          assert insts[1..][k] == insts[k + 1];
        }
      }
      ParseStep(insts[0], tail);
      ParseAppend(insts[1..], rest);
      if ParseBody(rest).Some? {
        var more := ParseBody(rest).value;
        assert insts == [insts[0]] + insts[1..];
        assert [insts[0]] + (insts[1..] + more) == ([insts[0]] + insts[1..]) + more;
      }
    }
  }

  /** Decoding the encoding of instructions whose word counts fit gives them back. */
  lemma ParseEncode(insts: seq<Inst>)
    requires AllFit(insts)
    ensures ParseBody(Encode(insts)) == Some(insts)
  {
    ParseAppend(insts, []);
    assert Encode(insts) + [] == Encode(insts);
    assert insts + [] == insts;
  }

  lemma EncodeCons(x: Inst, rest: seq<Inst>)
    ensures Encode([x] + rest) == EncodeInst(x) + Encode(rest)
  {
    assert ([x] + rest)[1..] == rest;
  }

  lemma EncodeAround(a: seq<Inst>, x: Inst, c: seq<Inst>)
    ensures Encode(a + [x] + c) == Encode(a) + EncodeInst(x) + Encode(c)
  {
    assert a + [x] + c == a + ([x] + c);
    EncodeAppend(a, [x] + c);
    EncodeCons(x, c);
  }

  /** The encoding of a list, split around its instruction `k`. */
  lemma {:induction false} EncodeSplit(insts: seq<Inst>, k: nat)
    requires k < |insts|
    ensures Encode(insts) == Encode(insts[..k]) + EncodeInst(insts[k]) + Encode(insts[k + 1..])
    decreases k
  {
    if k > 0 {
      var tail := insts[1..];
      EncodeSplit(tail, k - 1);
      assert tail[..k - 1] == insts[..k][1..];
      assert tail[k - 1] == insts[k];
      assert tail[k..] == insts[k + 1..];
    }
  }

  /** The encoding of the first `k + 1` instructions extends that of the first `k`. */
  lemma EncodePrefix(insts: seq<Inst>, k: nat)
    requires k < |insts|
    ensures Encode(insts[..k + 1]) == Encode(insts[..k]) + EncodeInst(insts[k])
  {
    assert insts[..k + 1] == insts[..k] + [insts[k]];
    EncodeAppend(insts[..k], [insts[k]]);
    assert Encode([insts[k]]) == EncodeInst(insts[k]) by {
      EncodeCons(insts[k], []);
      assert [insts[k]] + [] == [insts[k]];
    }
  }

  /**
   * Within the words of a decoded body, instruction `k` starts at offset
   * `|Encode(insts[..k])|`, its first word carries its opcode and its word
   * count, and its arguments follow it.
   */
  lemma DecodeAt(body: seq<Word>, insts: seq<Inst>, k: nat)
    requires ParseBody(body) == Some(insts)
    requires k < |insts|
    ensures var off := |Encode(insts[..k])|;
      && off + |insts[k].args| + 1 == |Encode(insts[..k + 1])| <= |body|
      && WordCount(body[off]) == |insts[k].args| + 1
      && OpcodeOf(body[off]) == insts[k].opcode
      && body[off + 1..off + 1 + |insts[k].args|] == insts[k].args
  {
    EncodeParse(body);
    EncodeSplit(insts, k);
    EncodePrefix(insts, k);
    var e := EncodeInst(insts[k]);
    var off := |Encode(insts[..k])|;
    assert Fits(insts[k]);
    assert body[off..off + |e|] == e;
    assert body[off] == e[0];
    assert body[off + 1..off + |e|] == e[1..];
  }
  /** The encoding of a list, split at index `k`. */
  lemma {:induction false} EncodeAt(insts: seq<Inst>, k: nat)
    requires k <= |insts|
    ensures Encode(insts) == Encode(insts[..k]) + Encode(insts[k..])
    decreases k
  {
    if k == 0 {
      assert insts[..0] == [] && insts[0..] == insts;
    } else {
      var tail := insts[1..];
      EncodeAt(tail, k - 1);
      assert insts[..k][0] == insts[0] && insts[..k][1..] == tail[..k - 1];
      assert tail[k - 1..] == insts[k..];
    }
  }

  lemma EncodeThree(a: seq<Inst>, b: seq<Inst>, c: seq<Inst>)
    ensures Encode(a + b + c) == Encode(a) + Encode(b) + Encode(c)
  {
    EncodeAppend(a + b, c);
    EncodeAppend(a, b);
  }

  /** Instructions further on start further on. */
  lemma StartsGrow(insts: seq<Inst>, k: nat, j: nat)
    requires k <= j <= |insts|
    ensures |Encode(insts[..k])| <= |Encode(insts[..j])|
  {
    assert insts[..j][..k] == insts[..k];
    EncodeAt(insts[..j], k);
  }
}
