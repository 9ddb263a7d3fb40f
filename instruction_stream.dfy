/**
 * The word buffer of a SPIR-V module and the iterator that walks it one
 * instruction at a time (`ShaderModuleSpirV::InstructionStream` and
 * `ShaderModuleSpirV::InstructionIterator`).
 *
 * Only the declarations of these classes are available; their contracts
 * here follow from those declarations and from the layout of section 2.3 of
 * the SPIR-V Specification.  An iterator, a `uint32_t *` into the buffer in
 * the program, is modelled as the word offset it points at.  The stream's
 * `std::vector<uint32_t>` is the field `words`, which the editing methods
 * reassign.  Each editing method is stated on words; the lemmas beside it
 * say what the edit does to the decoded instruction list.
 */
module InstructionStreams {
  import opened SpirV

  /**
   * What dereferencing an iterator yields: the opcode, the argument count
   * `(firstWord >> 16) - 1` computed in `uint32_t`, and the offset of the
   * first argument word.
   */
  datatype Instruction = Instruction(opcode: Opcode, nargs: Word, args: nat)

  function Decode(words: seq<Word>, pos: nat): (inst: Instruction)
    requires pos < |words|
    ensures inst.opcode == OpcodeOf(words[pos]) && inst.args == pos + 1
    ensures WordCount(words[pos]) > 0 ==> inst.nargs == WordCount(words[pos]) - 1
    ensures WordCount(words[pos]) == 0 ==> inst.nargs == 0xFFFF_FFFF
  {
    Instruction(OpcodeOf(words[pos]), (WordCount(words[pos]) - 1) % 0x1_0000_0000, pos + 1)
  }

  /** A header is present and the words after it decode into whole instructions. */
  predicate WellFormed(words: seq<Word>)
  {
    |words| >= HEADER_SIZE && ParseBody(words[HEADER_SIZE..]).Some?
  }

  function Instructions(words: seq<Word>): seq<Inst>
    requires WellFormed(words)
  {
    ParseBody(words[HEADER_SIZE..]).value
  }

  /** The word offset at which instruction `k` of `insts` begins, once laid out after the header. */
  function Start(insts: seq<Inst>, k: nat): nat
    requires k <= |insts|
  {
    HEADER_SIZE + |Encode(insts[..k])|
  }

  /** The words of instruction `k` are its encoding, and they reach up to the start of instruction `k + 1`. */
  lemma SpanAtStart(words: seq<Word>, k: nat)
    requires WellFormed(words)
    requires k < |Instructions(words)|
    ensures var insts := Instructions(words);
      var p := Start(insts, k);
      && p + |EncodeInst(insts[k])| == Start(insts, k + 1) <= |words|
      && words[p..Start(insts, k + 1)] == EncodeInst(insts[k])
      && Fits(insts[k])
  {
    var insts := Instructions(words);
    var p := Start(insts, k);
    var e := EncodeInst(insts[k]);
    SplitAtStart(words, k);
    assert insts[k..] == [insts[k]] + insts[k + 1..];
    EncodeCons(insts[k], insts[k + 1..]);
    EncodePrefix(insts, k);
    assert Fits(insts[k]);
    var rest := words[p..];
    assert rest[..|e|] == e;
    assert words[p..p + |e|] == rest[..|e|];
  }

  /** A stretch of words equal to an encoding starts with its first word and goes on with its arguments. */
  lemma SpanParts(words: seq<Word>, p: nat, q: nat, i: Inst)
    requires p <= q <= |words| && words[p..q] == EncodeInst(i)
    ensures words[p] == EncodeInst(i)[0]
    ensures words[p + 1..q] == i.args
  {
    assert words[p] == words[p..q][0];
    assert words[p + 1..q] == words[p..q][1..];
  }

  /**
   * Dereferencing at the start of instruction `k` yields that instruction,
   * whose words reach up to the start of instruction `k + 1`.
   */
  lemma DecodeAtStart(words: seq<Word>, k: nat)
    requires WellFormed(words)
    requires k < |Instructions(words)|
    ensures var insts := Instructions(words);
      var p := Start(insts, k);
      var i := insts[k];
      && p + |i.args| + 1 == Start(insts, k + 1) <= |words|
      && words[p..Start(insts, k + 1)] == EncodeInst(i)
      && Fits(i)
      && WordCount(words[p]) == |i.args| + 1
      && Decode(words, p) == Instruction(i.opcode, |i.args|, p + 1)
      && words[p + 1..p + 1 + |i.args|] == i.args
  {
    var insts := Instructions(words);
    SpanAtStart(words, k);
    SpanParts(words, Start(insts, k), Start(insts, k + 1), insts[k]);
  }

  /** The part of `DecodeAtStart` that iterating needs: where instruction `k` ends and what it decodes to. */
  lemma StepAtStart(words: seq<Word>, k: nat)
    requires WellFormed(words)
    requires k < |Instructions(words)|
    ensures var insts := Instructions(words);
      var p := Start(insts, k);
      && p < Start(insts, k + 1) <= |words|
      && Fits(insts[k])
      && WordCount(words[p]) == |insts[k].args| + 1 == Start(insts, k + 1) - p
      && Decode(words, p) == Instruction(insts[k].opcode, |insts[k].args|, p + 1)
  {
    DecodeAtStart(words, k);
  }

  /** The operands of instruction `k` are the words that follow its first word. */
  lemma ArgsAtStart(words: seq<Word>, k: nat)
    requires WellFormed(words)
    requires k < |Instructions(words)|
    ensures var insts := Instructions(words);
      var p := Start(insts, k);
      && p + 1 + |insts[k].args| <= |words|
      && forall a :: 0 <= a < |insts[k].args| ==> words[p + 1 + a] == insts[k].args[a]
  {
    var insts := Instructions(words);
    var p := Start(insts, k);
    DecodeAtStart(words, k);
    forall a | 0 <= a < |insts[k].args| ensures words[p + 1 + a] == insts[k].args[a] {
      assert words[p + 1 + a] == words[p + 1..p + 1 + |insts[k].args|][a];
    }
  }

  /** One past the last instruction is the end of the words. */
  lemma EndIsLastStart(words: seq<Word>)
    requires WellFormed(words)
    ensures Start(Instructions(words), |Instructions(words)|) == |words|
  {
    var insts := Instructions(words);
    EncodeParse(words[HEADER_SIZE..]);
    assert insts[..|insts|] == insts;
  }

  /** The offset an iterator reaches from `begin()` after `n` increments. */
  function Walk(words: seq<Word>, n: nat): nat
  {
    if n == 0 then HEADER_SIZE
    else
      var p := Walk(words, n - 1);
      if p < |words| then p + WordCount(words[p]) else p
  }

  lemma {:induction false} WalkVisitsStarts(words: seq<Word>, k: nat)
    requires WellFormed(words)
    requires k <= |Instructions(words)|
    ensures Walk(words, k) == Start(Instructions(words), k)
  {
    if k == 0 {
      assert Instructions(words)[..0] == [];
    } else {
      WalkVisitsStarts(words, k - 1);
      StepAtStart(words, k - 1);
    }
  }

  /**
   * On a well-formed stream, incrementing from `begin()` once per
   * instruction lands exactly on `end()`, and never before.
   */
  lemma IterationReachesEnd(words: seq<Word>)
    requires WellFormed(words)
    ensures Walk(words, |Instructions(words)|) == |words|
    ensures forall k :: 0 <= k < |Instructions(words)| ==> Walk(words, k) < |words|
  {
    WalkVisitsStarts(words, |Instructions(words)|);
    EndIsLastStart(words);
    forall k | 0 <= k < |Instructions(words)|
      ensures Walk(words, k) < |words|
    {
      WalkVisitsStarts(words, k);
      DecodeAtStart(words, k);
    }
  }

  /** The words before `p` and from `p` on are the encodings of the instructions before and from `k`. */
  lemma SplitAtStart(words: seq<Word>, k: nat)
    requires WellFormed(words)
    requires k <= |Instructions(words)|
    ensures var insts := Instructions(words);
      var p := Start(insts, k);
      && p <= |words|
      && words[HEADER_SIZE..p] == Encode(insts[..k])
      && words[p..] == Encode(insts[k..])
      && AllFit(insts)
  {
    var insts := Instructions(words);
    var body := words[HEADER_SIZE..];
    EncodeParse(body);
    EncodeAt(insts, k);
    assert words[HEADER_SIZE..Start(insts, k)] == body[..|Encode(insts[..k])|];
    assert words[Start(insts, k)..] == body[|Encode(insts[..k])|..];
  }

  lemma AllFitConcat(a: seq<Inst>, b: seq<Inst>)
    requires AllFit(a) && AllFit(b)
    ensures AllFit(a + b)
  {
    forall j | 0 <= j < |a + b| ensures Fits((a + b)[j]) {
      if j >= |a| {
        assert (a + b)[j] == b[j - |a|];
      }
    }
  }

  lemma AllFitParts(insts: seq<Inst>, k: nat)
    requires AllFit(insts) && k <= |insts|
    ensures AllFit(insts[..k]) && AllFit(insts[k..])
  {
    forall j | 0 <= j < |insts[k..]| ensures Fits(insts[k..][j]) {
      assert insts[k..][j] == insts[k + j];
    }
  }

  /**
   * Replacing the words of instructions `k` up to `j` by the encoding of
   * `mid` replaces those instructions by `mid` in the decoded list; the
   * header is unchanged.  Every edit of the stream is one of these.
   */
  lemma Splice(words: seq<Word>, k: nat, j: nat, mid: seq<Inst>)
    requires WellFormed(words)
    requires k <= j <= |Instructions(words)|
    requires AllFit(mid)
    ensures var insts := Instructions(words);
      && Start(insts, k) <= Start(insts, j) <= |words|
      && WellFormed(Spliced(words, Start(insts, k), Start(insts, j), Encode(mid)))
      && Instructions(Spliced(words, Start(insts, k), Start(insts, j), Encode(mid))) == insts[..k] + mid + insts[j..]
      && Spliced(words, Start(insts, k), Start(insts, j), Encode(mid))[..HEADER_SIZE] == words[..HEADER_SIZE]
  {
    var insts := Instructions(words);
    var p, q := Start(insts, k), Start(insts, j);
    SplitAtStart(words, k);
    SplitAtStart(words, j);
    StartsGrow(insts, k, j);
    var pre, post := insts[..k], insts[j..];
    var after := Spliced(words, p, q, Encode(mid));
    SliceOfSplice(words, HEADER_SIZE, p, q, Encode(mid));
    EncodeThree(pre, mid, post);
    assert after[HEADER_SIZE..] == Encode(pre + mid + post);
    AllFitParts(insts, k);
    AllFitParts(insts, j);
    AllFitConcat(pre, mid);
    AllFitConcat(pre + mid, post);
    ParseEncode(pre + mid + post);
  }

  /** `words` with the words from `p` up to `q` replaced by `m`. */
  function Spliced(words: seq<Word>, p: nat, q: nat, m: seq<Word>): seq<Word>
    requires p <= q <= |words|
  {
    words[..p] + m + words[q..]
  }

  /** The words of a splice, seen from offset `h` before the splice point. */
  lemma SliceOfSplice(w: seq<Word>, h: nat, p: nat, q: nat, m: seq<Word>)
    requires h <= p <= q <= |w|
    ensures Spliced(w, p, q, m)[h..] == w[h..p] + m + w[q..]
    ensures Spliced(w, p, q, m)[..h] == w[..h]
  {
  }

  /**
   * `insert`: a new instruction, its first word then its arguments, placed
   * before offset `p`; the words before `p` stay and those from `p` on move
   * up by the length of the new instruction.
   */
  function InsertedWords(words: seq<Word>, p: nat, opcode: Opcode, args: seq<Word>): (r: seq<Word>)
    requires p <= |words|
    ensures |r| == |words| + |args| + 1
    ensures r[..p] == words[..p] && r[p + 1 + |args|..] == words[p..]
    ensures r[p] == FirstWord(|args| + 1, opcode) && r[p + 1..p + 1 + |args|] == args
  {
    Spliced(words, p, p, [FirstWord(|args| + 1, opcode)] + args)
  }

  /**
   * `erase`: the words of the instruction at `p` removed; the words before
   * `p` stay and those after the instruction move down.
   */
  function ErasedWords(words: seq<Word>, p: nat): (r: seq<Word>)
    requires p < |words| && p + WordCount(words[p]) <= |words|
    ensures |r| == |words| - WordCount(words[p])
    ensures r[..p] == words[..p] && r[p..] == words[p + WordCount(words[p])..]
  {
    Spliced(words, p, p + WordCount(words[p]), [])
  }

  /**
   * `erase_arg`: argument word `a` of the instruction at `p` removed and its
   * word count lowered by one; the opcode and every other word stay.
   */
  function ArgErasedWords(words: seq<Word>, p: nat, a: nat): (r: seq<Word>)
    requires p + 2 + a <= |words| && WordCount(words[p]) > 0
    ensures |r| == |words| - 1
    ensures r[..p] == words[..p] && r[p + 1..p + 1 + a] == words[p + 1..p + 1 + a] && r[p + 1 + a..] == words[p + 2 + a..]
    ensures WordCount(r[p]) == WordCount(words[p]) - 1 && OpcodeOf(r[p]) == OpcodeOf(words[p])
  {
    Spliced(words, p, p + 2 + a, [FirstWord(WordCount(words[p]) - 1, OpcodeOf(words[p]))] + words[p + 1..p + 1 + a])
  }

  /** On words, `erase_arg` replaces the instruction at `p` by its encoding without argument `a`. */
  lemma ArgErasedSplice(words: seq<Word>, p: nat, q: nat, a: nat, i: Inst)
    requires p + 1 + |i.args| == q <= |words| && a < |i.args|
    requires WordCount(words[p]) == |i.args| + 1 && OpcodeOf(words[p]) == i.opcode
    requires words[p + 1..q] == i.args
    ensures ArgErasedWords(words, p, a) == Spliced(words, p, q, Encode([Inst(i.opcode, i.args[..a] + i.args[a + 1..])]))
  {
    var smaller := Inst(i.opcode, i.args[..a] + i.args[a + 1..]);
    var first := FirstWord(|i.args|, i.opcode);
    var m := [first] + i.args[..a] + i.args[a + 1..];
    EncodeOne(smaller);
    assert EncodeInst(smaller) == m;
    DropWord(words, p, q, a, first, i.args);
  }

  /** The words of an instruction with argument `a` dropped, as a splice of the stream's words. */
  lemma DropWord(w: seq<Word>, p: nat, q: nat, a: nat, first: Word, args: seq<Word>)
    requires p + 1 + |args| == q <= |w| && a < |args|
    requires w[p + 1..q] == args
    ensures Spliced(w, p, p + 2 + a, [first] + w[p + 1..p + 1 + a])
         == Spliced(w, p, q, [first] + args[..a] + args[a + 1..])
  {
    assert w[p + 1..p + 1 + a] == args[..a];
    assert w[p + 2 + a..] == args[a + 1..] + w[q..] by {
      assert w[p + 2 + a..q] == args[a + 1..];
    }
  }

  lemma EncodeOne(i: Inst)
    ensures Encode([i]) == EncodeInst(i)
  {
    EncodeCons(i, []);
    assert [i] + [] == [i];
  }

  /**
   * Inserting a fitting instruction at the start of instruction `k` inserts
   * it into the decoded list at index `k`; the header is unchanged.
   */
  lemma InsertAtStart(words: seq<Word>, k: nat, inst: Inst)
    requires WellFormed(words)
    requires k <= |Instructions(words)|
    requires Fits(inst)
    ensures var insts := Instructions(words);
      var p := Start(insts, k);
      && p <= |words|
      && WellFormed(InsertedWords(words, p, inst.opcode, inst.args))
      && Instructions(InsertedWords(words, p, inst.opcode, inst.args)) == insts[..k] + [inst] + insts[k..]
      && InsertedWords(words, p, inst.opcode, inst.args)[..HEADER_SIZE] == words[..HEADER_SIZE]
  {
    assert AllFit([inst]);
    Splice(words, k, k, [inst]);
    EncodeOne(inst);
  }

  /**
   * An instruction with 65535 arguments has a word count of 65536, which
   * does not fit the 16-bit field: inserting it leaves a first word whose
   * word count reads 0, and the stream no longer decodes.
   */
  lemma InsertOverlongBreaksStream(words: seq<Word>, k: nat, inst: Inst)
    requires WellFormed(words)
    requires k <= |Instructions(words)|
    requires |inst.args| == 0xFFFF
    ensures var p := Start(Instructions(words), k);
      p <= |words| && !WellFormed(InsertedWords(words, p, inst.opcode, inst.args))
  {
    var insts := Instructions(words);
    var p := Start(insts, k);
    SplitAtStart(words, k);
    AllFitParts(insts, k);
    var tail := [FirstWord(|inst.args| + 1, inst.opcode)] + inst.args + words[p..];
    var after := InsertedWords(words, p, inst.opcode, inst.args);
    SliceOfSplice(words, HEADER_SIZE, p, p, [FirstWord(|inst.args| + 1, inst.opcode)] + inst.args);
    assert after[HEADER_SIZE..] == Encode(insts[..k]) + tail;
    assert WordCount(tail[0]) == 0;
    ParseAppend(insts[..k], tail);
  }

  /**
   * Erasing the words of instruction `k` removes it from the decoded list;
   * the header is unchanged and the instruction that followed now starts
   * where the erased one did.
   */
  lemma EraseAtStart(words: seq<Word>, k: nat)
    requires WellFormed(words)
    requires k < |Instructions(words)|
    ensures var insts := Instructions(words);
      var p := Start(insts, k);
      && p < |words| && p + WordCount(words[p]) <= |words|
      && WellFormed(ErasedWords(words, p))
      && Instructions(ErasedWords(words, p)) == insts[..k] + insts[k + 1..]
      && Start(Instructions(ErasedWords(words, p)), k) == p
      && ErasedWords(words, p)[..HEADER_SIZE] == words[..HEADER_SIZE]
  {
    var insts := Instructions(words);
    DecodeAtStart(words, k);
    Splice(words, k, k + 1, []);
    assert insts[..k] + [] == insts[..k];
    assert (insts[..k] + insts[k + 1..])[..k] == insts[..k];
  }

  /** `insts` with argument `a` of instruction `k` removed. */
  function WithoutArg(insts: seq<Inst>, k: nat, a: nat): seq<Inst>
    requires k < |insts| && a < |insts[k].args|
  {
    insts[k := Inst(insts[k].opcode, insts[k].args[..a] + insts[k].args[a + 1..])]
  }

  /**
   * Removing argument word `a` of instruction `k` and writing the decremented
   * word count removes exactly that argument from the decoded list.
   */
  lemma EraseArgAtStart(words: seq<Word>, k: nat, a: nat)
    requires WellFormed(words)
    requires k < |Instructions(words)|
    requires a < |Instructions(words)[k].args|
    ensures var insts := Instructions(words);
      var p := Start(insts, k);
      && p + 2 + a <= |words| && WordCount(words[p]) == |insts[k].args| + 1
      && WellFormed(ArgErasedWords(words, p, a))
      && Instructions(ArgErasedWords(words, p, a)) == WithoutArg(insts, k, a)
      && ArgErasedWords(words, p, a)[..HEADER_SIZE] == words[..HEADER_SIZE]
  {
    var insts := Instructions(words);
    var p, q := Start(insts, k), Start(insts, k + 1);
    var i := insts[k];
    DecodeAtStart(words, k);
    var smaller := Inst(i.opcode, i.args[..a] + i.args[a + 1..]);
    assert AllFit([smaller]);
    Splice(words, k, k + 1, [smaller]);
    ArgErasedSplice(words, p, q, a, i);
    assert WithoutArg(insts, k, a) == insts[..k] + [smaller] + insts[k + 1..];
  }

  /** Overwriting a word inside a stretch of words with a known encoding. */
  lemma SetWordSplice(w: seq<Word>, p: nat, q: nat, e: seq<Word>, a: nat, v: Word)
    requires p + |e| == q <= |w| && 1 + a < |e|
    requires w[p..q] == e
    ensures Spliced(w, p, q, e[1 + a := v]) == w[p + 1 + a := v]
  {
  }

  /**
   * Writing argument word `a` of instruction `k` in place (through the
   * `args` pointer of a dereferenced iterator) changes that argument and
   * nothing else in the decoded list.
   */
  lemma SetArgAtStart(words: seq<Word>, k: nat, a: nat, v: Word)
    requires WellFormed(words)
    requires k < |Instructions(words)|
    requires a < |Instructions(words)[k].args|
    ensures var insts := Instructions(words);
      var p := Start(insts, k);
      && p + 1 + a < |words|
      && WellFormed(words[p + 1 + a := v])
      && Instructions(words[p + 1 + a := v]) == insts[k := Inst(insts[k].opcode, insts[k].args[a := v])]
  {
    var insts := Instructions(words);
    var p, q := Start(insts, k), Start(insts, k + 1);
    var i := insts[k];
    var changed := Inst(i.opcode, i.args[a := v]);
    InstructionWords(words, k);
    StepAtStart(words, k);
    assert AllFit([changed]);
    Splice(words, k, k + 1, [changed]);
    EncodeOne(changed);
    EncodeInstSetArg(i, a, v);
    SetWordSplice(words, p, q, EncodeInst(i), a, v);
    var m := Spliced(words, p, q, Encode([changed]));
    assert m == words[p + 1 + a := v];
    assert WellFormed(m) && Instructions(m) == insts[..k] + [changed] + insts[k + 1..];
    assert insts[k := changed] == insts[..k] + [changed] + insts[k + 1..];
    assert Instructions(m) == insts[k := changed];
  }

  /** Two well-formed streams with the same header and the same instructions are the same words. */
  lemma WordsDetermined(a: seq<Word>, b: seq<Word>)
    requires WellFormed(a) && WellFormed(b)
    requires a[..HEADER_SIZE] == b[..HEADER_SIZE]
    requires Instructions(a) == Instructions(b)
    ensures a == b
  {
    EncodeParse(a[HEADER_SIZE..]);
    EncodeParse(b[HEADER_SIZE..]);
    assert a == a[..HEADER_SIZE] + a[HEADER_SIZE..];
    assert b == b[..HEADER_SIZE] + b[HEADER_SIZE..];
  }

  /** Every word after the header lies inside exactly one instruction; here, inside one from `k` on. */
  lemma {:induction false} LocateFrom(words: seq<Word>, w: nat, k: nat) returns (j: nat)
    requires WellFormed(words)
    requires k <= |Instructions(words)|
    requires Start(Instructions(words), k) <= w < |words|
    ensures k <= j < |Instructions(words)|
    ensures Start(Instructions(words), j) <= w < Start(Instructions(words), j + 1)
    decreases |Instructions(words)| - k
  {
    EndIsLastStart(words);
    StepAtStart(words, k);
    if w < Start(Instructions(words), k + 1) {
      j := k;
    } else {
      j := LocateFrom(words, w, k + 1);
    }
  }

  /** The instructions that strip removes: those the SPIR-V Specification lists under "Debug Instructions". */
  predicate IsDebugInstruction(op: Opcode)
  {
    || op == OP_SOURCE_CONTINUED || op == OP_SOURCE || op == OP_SOURCE_EXTENSION
    || op == OP_NAME || op == OP_MEMBER_NAME || op == OP_STRING
    || op == OP_LINE || op == OP_NO_LINE || op == OP_MODULE_PROCESSED
  }

  /** The instructions with every debug instruction removed, the others kept in order. */
  function StripInsts(insts: seq<Inst>): (r: seq<Inst>)
    ensures |r| <= |insts|
    ensures forall j :: 0 <= j < |r| ==> !IsDebugInstruction(r[j].opcode) && r[j] in insts
  {
    if insts == [] then []
    else if IsDebugInstruction(insts[0].opcode) then StripInsts(insts[1..])
    else [insts[0]] + StripInsts(insts[1..])
  }

  /** Stripping works instruction by instruction: it distributes over concatenation. */
  lemma {:induction false} StripAppend(a: seq<Inst>, b: seq<Inst>)
    ensures StripInsts(a + b) == StripInsts(a) + StripInsts(b)
    decreases |a|
  {
    if a == [] {
      assert a + b == b;
    } else {
      assert (a + b)[0] == a[0];
      assert (a + b)[1..] == a[1..] + b;
      StripAppend(a[1..], b);
    }
  }

  lemma {:induction false} StripIdempotent(insts: seq<Inst>)
    ensures StripInsts(StripInsts(insts)) == StripInsts(insts)
    decreases |insts|
  {
    if insts != [] {
      StripIdempotent(insts[1..]);
      if !IsDebugInstruction(insts[0].opcode) {
        var r := StripInsts(insts);
        assert r[0] == insts[0] && r[1..] == StripInsts(insts[1..]);
      }
    }
  }

  /** A stripped instruction list never takes more words than the original. */
  lemma {:induction false} StripShrinks(insts: seq<Inst>)
    ensures |Encode(StripInsts(insts))| <= |Encode(insts)|
    decreases |insts|
  {
    if insts != [] {
      StripShrinks(insts[1..]);
      if !IsDebugInstruction(insts[0].opcode) {
        EncodeCons(insts[0], StripInsts(insts[1..]));
      }
    }
  }

  /** Stripping keeps every instruction that is not a debug instruction. */
  lemma {:induction false} StripKeeps(insts: seq<Inst>, i: Inst)
    requires i in insts && !IsDebugInstruction(i.opcode)
    ensures i in StripInsts(insts)
    decreases |insts|
  {
    if insts[0] != i {
      assert i in insts[1..];
      StripKeeps(insts[1..], i);
    }
  }

  /**
   * A list without debug instructions is left as it is.  With `StripAppend`
   * and the contract of `StripInsts` (a lone debug instruction strips to
   * nothing), this fixes the result of stripping any list.
   */
  lemma {:induction false} StripWithoutDebug(insts: seq<Inst>)
    requires forall j :: 0 <= j < |insts| ==> !IsDebugInstruction(insts[j].opcode)
    ensures StripInsts(insts) == insts
    decreases |insts|
  {
    if insts != [] {
      assert !IsDebugInstruction(insts[0].opcode);
      assert forall j :: 0 <= j < |insts[1..]| ==> insts[1..][j] == insts[j + 1];
      StripWithoutDebug(insts[1..]);
      assert insts == [insts[0]] + insts[1..];
    }
  }

  lemma StripFits(insts: seq<Inst>)
    requires AllFit(insts)
    ensures AllFit(StripInsts(insts))
  {
    var r := StripInsts(insts);
    forall j | 0 <= j < |r| ensures Fits(r[j]) {
      assert r[j] in insts;
    }
  }

  /**
   * The words `strip` has copied after walking over the first `k`
   * instructions: the header, then the words of every instruction so far
   * that is not a debug instruction.
   */
  ghost function KeptWords(words: seq<Word>, k: nat): seq<Word>
    requires WellFormed(words) && k <= |Instructions(words)|
    decreases k
  {
    if k == 0 then words[..HEADER_SIZE]
    else
      var insts := Instructions(words);
      StepAtStart(words, k - 1);
      KeptWords(words, k - 1)
        + (if IsDebugInstruction(insts[k - 1].opcode) then [] else words[Start(insts, k - 1)..Start(insts, k)])
  }

  /** What the copying walk keeps is the header followed by the stripped prefix. */
  lemma {:induction false} KeptWordsAreStripped(words: seq<Word>, k: nat)
    requires WellFormed(words) && k <= |Instructions(words)|
    ensures KeptWords(words, k) == words[..HEADER_SIZE] + Encode(StripInsts(Instructions(words)[..k]))
    decreases k
  {
    if k == 0 {
      assert Instructions(words)[..0] == [];
      assert words[..HEADER_SIZE] + [] == words[..HEADER_SIZE];
    } else {
      KeptWordsAreStripped(words, k - 1);
      KeptWordsStep(words, k - 1);
    }
  }

  lemma KeptWordsStep(words: seq<Word>, k: nat)
    requires WellFormed(words) && k < |Instructions(words)|
    requires KeptWords(words, k) == words[..HEADER_SIZE] + Encode(StripInsts(Instructions(words)[..k]))
    ensures KeptWords(words, k + 1) == words[..HEADER_SIZE] + Encode(StripInsts(Instructions(words)[..k + 1]))
  {
    var insts := Instructions(words);
    var done := Encode(StripInsts(insts[..k]));
    InstructionWords(words, k);
    StripPrefixStep(insts, k);
    if IsDebugInstruction(insts[k].opcode) {
      assert done + [] == done;
    } else {
      assert words[..HEADER_SIZE] + done + EncodeInst(insts[k]) == words[..HEADER_SIZE] + (done + EncodeInst(insts[k]));
    }
  }

  /** The words from the start of instruction `k` to the start of the next are its encoding. */
  lemma InstructionWords(words: seq<Word>, k: nat)
    requires WellFormed(words) && k < |Instructions(words)|
    ensures var insts := Instructions(words);
      Start(insts, k) <= Start(insts, k + 1) <= |words| && words[Start(insts, k)..Start(insts, k + 1)] == EncodeInst(insts[k])
  {
    DecodeAtStart(words, k);
  }

  /** Stripping one more instruction of a prefix appends its words unless it is a debug instruction. */
  lemma StripPrefixStep(insts: seq<Inst>, k: nat)
    requires k < |insts|
    ensures Encode(StripInsts(insts[..k + 1]))
         == Encode(StripInsts(insts[..k])) + (if IsDebugInstruction(insts[k].opcode) then [] else EncodeInst(insts[k]))
  {
    var here := insts[k];
    var done := StripInsts(insts[..k]);
    assert insts[..k + 1] == insts[..k] + [here];
    StripAppend(insts[..k], [here]);
    if IsDebugInstruction(here.opcode) {
      assert StripInsts([here]) == [];
      assert done + [] == done;
      assert Encode(done) + [] == Encode(done);
    } else {
      assert StripInsts([here]) == [here];
      EncodeAppend(done, [here]);
      EncodeOne(here);
    }
  }

  /** The words of a stripped stream: the same header, then the instructions that are not debug instructions. */
  function StrippedWords(words: seq<Word>): (r: seq<Word>)
    requires WellFormed(words)
    ensures WellFormed(r) && Instructions(r) == StripInsts(Instructions(words))
    ensures r[..HEADER_SIZE] == words[..HEADER_SIZE]
    ensures |r| <= |words|
  {
    var insts := Instructions(words);
    var stripped := StripInsts(insts);
    EncodeParse(words[HEADER_SIZE..]);
    StripFits(insts);
    ParseEncode(stripped);
    StripShrinks(insts);
    var r := words[..HEADER_SIZE] + Encode(stripped);
    assert r[HEADER_SIZE..] == Encode(stripped);
    r
  }

  /** Stripping twice gives the same words as stripping once. */
  lemma StrippedWordsIdempotent(words: seq<Word>)
    requires WellFormed(words)
    ensures StrippedWords(StrippedWords(words)) == StrippedWords(words)
  {
    var r := StrippedWords(words);
    StripIdempotent(Instructions(words));
    EncodeParse(r[HEADER_SIZE..]);
    assert r == r[..HEADER_SIZE] + r[HEADER_SIZE..];
  }

  /**
   * The opcodes that come before the annotation section in the logical
   * layout of section 2.4 of the SPIR-V Specification: capabilities,
   * extensions, extended-instruction-set imports, the memory model, entry
   * points, execution modes and the debug instructions (strings, sources,
   * names and module-processed markers).
   */
  predicate IsPreambleOpcode(op: Opcode)
  {
    || op == OP_CAPABILITY || op == OP_EXTENSION || op == OP_EXT_INST_IMPORT
    || op == OP_MEMORY_MODEL || op == OP_ENTRY_POINT
    || op == OP_EXECUTION_MODE || op == OP_EXECUTION_MODE_ID
    || op == OP_STRING || op == OP_SOURCE_EXTENSION || op == OP_SOURCE || op == OP_SOURCE_CONTINUED
    || op == OP_NAME || op == OP_MEMBER_NAME || op == OP_MODULE_PROCESSED
  }

  /** The index of the first instruction that does not belong before the annotations. */
  function FirstNonPreamble(insts: seq<Inst>): (k: nat)
    ensures k <= |insts|
    ensures forall j :: 0 <= j < k ==> IsPreambleOpcode(insts[j].opcode)
    ensures k < |insts| ==> !IsPreambleOpcode(insts[k].opcode)
  {
    if insts == [] || !IsPreambleOpcode(insts[0].opcode) then 0
    else 1 + FirstNonPreamble(insts[1..])
  }

  /** The ids handed out by `n` successive calls of `allocate_id` on a stream whose bound is `bound`. */
  function AllocatedIds(bound: Word, n: nat): (ids: seq<Word>)
    ensures |ids| == n
    decreases n
  {
    if n == 0 then [] else [bound] + AllocatedIds(((bound + 1) % 0x1_0000_0000) as Word, n - 1)
  }

  /** Successive allocations count up from the bound, modulo 2^32. */
  lemma {:induction false} AllocatedIdsCount(bound: Word, n: nat)
    ensures forall j :: 0 <= j < n ==> AllocatedIds(bound, n)[j] == (bound + j) % 0x1_0000_0000
    decreases n
  {
    if n > 0 {
      var next := ((bound + 1) % 0x1_0000_0000) as Word;
      AllocatedIdsCount(next, n - 1);
      forall j | 1 <= j < n
        ensures AllocatedIds(bound, n)[j] == (bound + j) % 0x1_0000_0000
      {
        assert AllocatedIds(bound, n)[j] == AllocatedIds(next, n - 1)[j - 1];
        if bound + 1 == 0x1_0000_0000 {
          assert next == 0;
        } else {
          assert next == bound + 1;
        }
      }
    }
  }

  /**
   * As long as the bound does not wrap around, successive allocations hand
   * out strictly increasing ids, none below the starting bound.
   */
  lemma AllocatedIdsFresh(bound: Word, n: nat)
    requires bound + n <= 0x1_0000_0000
    ensures forall j :: 0 <= j < n ==> AllocatedIds(bound, n)[j] == bound + j
  {
    AllocatedIdsCount(bound, n);
    forall j | 0 <= j < n ensures AllocatedIds(bound, n)[j] == bound + j {
      assert (bound + j) % 0x1_0000_0000 == bound + j;
    }
  }

  /** Advancing a bound that is already `first + i` modulo 2^32 by one more gives `first + i + 1` modulo 2^32. */
  lemma BoundStep(first: Word, i: nat)
    ensures ((first + i) % 0x1_0000_0000 + 1) % 0x1_0000_0000 == (first + i + 1) % 0x1_0000_0000
  {
  }

  /** Writing the bound, a header word, changes neither the well-formedness nor the instructions of a stream. */
  lemma BoundWriteKeepsInstructions(words: seq<Word>, v: Word)
    requires WellFormed(words)
    ensures WellFormed(words[BOUND_INDEX := v]) && Instructions(words[BOUND_INDEX := v]) == Instructions(words)
  {
    assert words[BOUND_INDEX := v][HEADER_SIZE..] == words[HEADER_SIZE..];
  }

  /** Once the bound is at its top, the next allocation wraps around to id 0. */
  lemma AllocatedIdsWrap(n: nat)
    requires n >= 2
    ensures AllocatedIds(0xFFFF_FFFF, n)[1] == 0
  {
    AllocatedIdsCount(0xFFFF_FFFF, n);
  }

  class InstructionIterator {
    /** The offset, in words, of the instruction the cursor points at. */
    var pos: nat

    constructor (pos: nat)
      ensures this.pos == pos
    {
      this.pos := pos;
    }

    /** `operator *`: decodes the first word under the cursor. */
    method Deref(s: InstructionStream) returns (inst: Instruction)
      requires pos < |s.words|
      ensures inst == Decode(s.words, pos)
    {
      var w := s.words[pos];
      inst := Instruction(OpcodeOf(w), (WordCount(w) - 1) % 0x1_0000_0000, pos + 1);
    }

    /** `operator ++`: advances the cursor by the word count of the instruction under it. */
    method Increment(s: InstructionStream)
      requires pos < |s.words|
      modifies this
      ensures pos == old(pos) + WordCount(s.words[old(pos)])
    {
      pos := pos + WordCount(s.words[pos]);
    }

    /** `operator ==` (and, negated, `operator !=`): two iterators are equal when they point at the same word. */
    predicate Equals(other: InstructionIterator): (eq: bool)
      reads this, other
      ensures eq <==> pos == other.pos
    {
      pos == other.pos
    }
  }

  class InstructionStream {
    var words: seq<Word>

    constructor Empty()
      ensures words == []
    {
      words := [];
    }

    /** Wraps a copy of, or takes over, an existing word sequence. */
    constructor (words: seq<Word>)
      ensures this.words == words
    {
      this.words := words;
    }

    /** The module has at least a header, and it starts with the magic number. */
    function ValidateHeader(): (ok: bool)
      reads this
      ensures ok <==> |words| >= HEADER_SIZE && words[0] == MAGIC_NUMBER
    {
      if |words| < HEADER_SIZE then false else words[0] == MAGIC_NUMBER
    }

    /** The iterator at the first instruction after the header. */
    method Begin() returns (it: InstructionIterator)
      requires |words| >= HEADER_SIZE
      ensures fresh(it) && it.pos == HEADER_SIZE
    {
      it := new InstructionIterator(HEADER_SIZE);
    }

    /** The iterator one past the last word. */
    method End() returns (it: InstructionIterator)
      ensures fresh(it) && it.pos == |words|
    {
      it := new InstructionIterator(|words|);
    }

    /**
     * The iterator at the first instruction that does not belong before the
     * annotation section, or `end()` if there is none.
     */
    method BeginAnnotations() returns (it: InstructionIterator)
      requires WellFormed(words)
      ensures fresh(it)
      ensures it.pos == Start(Instructions(words), FirstNonPreamble(Instructions(words)))
    {
      ghost var insts := Instructions(words);
      EndIsLastStart(words);
      it := Begin();
      var e := End();
      ghost var k := 0;
      assert insts[..0] == [];
      while !it.Equals(e)
        invariant fresh(it) && fresh(e) && it != e && e.pos == |words|
        invariant k <= |insts| && it.pos == Start(insts, k)
        invariant forall j :: 0 <= j < k ==> IsPreambleOpcode(insts[j].opcode)
        decreases |words| - it.pos
      {
        StepAtStart(words, k);
        var inst := it.Deref(this);
        if !IsPreambleOpcode(inst.opcode) {
          break;
        }
        it.Increment(this);
        k := k + 1;
      }
      if k < |insts| {
        StepAtStart(words, k);
      }
    }

    /** `insert(it, opcode, {args...})`: forwards the list and its length, as a `uint16_t`, to `InsertWords`. */
    method Insert(it: InstructionIterator, opcode: Opcode, args: seq<Word>) returns (r: InstructionIterator)
      requires it.pos <= |words|
      modifies this
      ensures fresh(r) && r.pos == it.pos
      ensures words == InsertedWords(old(words), it.pos, opcode, args[..|args| % 0x1_0000])
      ensures |args| + 1 < WORD_COUNT_UNIT ==> Decode(words, r.pos) == Instruction(opcode, |args|, r.pos + 1)
    {
      r := InsertWords(it, opcode, args, |args| % 0x1_0000);
    }

    /**
     * `insert(it, opcode, args, nargs)`: puts a new instruction, made of its
     * first word and the `nargs` argument words, before the word `it`
     * points at, and returns an iterator to it.
     */
    method InsertWords(it: InstructionIterator, opcode: Opcode, args: seq<Word>, nargs: nat) returns (r: InstructionIterator)
      requires it.pos <= |words|
      requires nargs < 0x1_0000 && nargs <= |args|
      modifies this
      ensures fresh(r) && r.pos == it.pos
      ensures words == InsertedWords(old(words), it.pos, opcode, args[..nargs])
      ensures nargs + 1 < WORD_COUNT_UNIT ==> Decode(words, r.pos) == Instruction(opcode, nargs, r.pos + 1)
    {
      var offset := it.pos;
      words := words[..offset] + [FirstWord(nargs + 1, opcode)] + words[offset..];
      words := words[..offset + 1] + args[..nargs] + words[offset + 1..];
      r := new InstructionIterator(offset);
    }

    /** Removes the words of the instruction at `it` and returns an iterator to what follows. */
    method Erase(it: InstructionIterator) returns (r: InstructionIterator)
      requires it.pos < |words|
      requires it.pos + WordCount(words[it.pos]) <= |words|
      modifies this
      ensures fresh(r) && r.pos == it.pos
      ensures words == ErasedWords(old(words), it.pos)
    {
      var offset := it.pos;
      words := words[..offset] + words[offset + WordCount(words[offset])..];
      r := new InstructionIterator(offset);
    }

    /**
     * Removes argument word `arg` of the instruction at `it` and writes its
     * word count, one lower, back into its first word.
     */
    method EraseArg(it: InstructionIterator, arg: nat) returns (r: InstructionIterator)
      requires arg < 0x1_0000
      requires it.pos < |words|
      requires arg + 1 < WordCount(words[it.pos])
      requires it.pos + 1 + arg < |words|
      modifies this
      ensures fresh(r) && r.pos == it.pos
      ensures words == ArgErasedWords(old(words), it.pos, arg)
    {
      var offset := it.pos;
      var oldCount := WordCount(words[offset]);
      words := words[offset := FirstWord(oldCount - 1, OpcodeOf(words[offset]))];
      words := words[..offset + 1 + arg] + words[offset + 2 + arg..];
      r := new InstructionIterator(offset);
    }

    /** Header word 3, the bound that the module's ids are meant to stay below. */
    function GetIdBound(): (bound: Word)
      reads this
      requires |words| > BOUND_INDEX
      ensures bound == words[BOUND_INDEX]
    {
      words[BOUND_INDEX]
    }

    /** Returns the current id bound and raises the bound by one, in `uint32_t`. */
    method AllocateId() returns (id: Word)
      requires |words| > BOUND_INDEX
      modifies this
      ensures id == old(GetIdBound())
      ensures words == old(words)[BOUND_INDEX := ((id + 1) % 0x1_0000_0000) as Word]
      ensures AllocatedIds(id, 2)[1] == GetIdBound()
      ensures WellFormed(old(words)) ==> WellFormed(words) && Instructions(words) == Instructions(old(words))
    {
      id := words[BOUND_INDEX];
      if WellFormed(words) {
        BoundWriteKeepsInstructions(words, ((id + 1) % 0x1_0000_0000) as Word);
      }
      words := words[BOUND_INDEX := ((id + 1) % 0x1_0000_0000) as Word];
    }

    /** `n` calls of `allocate_id` in a row: they return `AllocatedIds` of the starting bound. */
    method AllocateIds(n: nat) returns (ids: seq<Word>)
      requires |words| > BOUND_INDEX
      modifies this
      ensures ids == AllocatedIds(old(GetIdBound()), n)
      ensures words == old(words)[BOUND_INDEX := ((old(GetIdBound()) + n) % 0x1_0000_0000) as Word]
    {
      ghost var first := words[BOUND_INDEX];
      ids := [];
      var i := 0;
      while i < n
        invariant i <= n && |words| > BOUND_INDEX
        invariant words == old(words)[BOUND_INDEX := ((first + i) % 0x1_0000_0000) as Word]
        invariant ids + AllocatedIds(GetIdBound(), n - i) == AllocatedIds(first, n)
      {
        ghost var rest := AllocatedIds(GetIdBound(), n - i);
        var id := AllocateId();
        assert rest == [id] + AllocatedIds(GetIdBound(), n - i - 1);
        assert ids + rest == (ids + [id]) + AllocatedIds(GetIdBound(), n - i - 1);
        ids := ids + [id];
        BoundStep(first, i);
        i := i + 1;
      }
    }

    /**
     * A new stream with the same header and every instruction except the
     * debug instructions.  The receiver is not changed.
     */
    method Strip() returns (r: InstructionStream)
      requires WellFormed(words)
      ensures fresh(r)
      ensures r.words == StrippedWords(words)
    {
      ghost var insts := Instructions(words);
      EndIsLastStart(words);
      var stripped := words[..HEADER_SIZE];
      var it := Begin();
      var e := End();
      ghost var k := 0;
      assert insts[..0] == [];
      while !it.Equals(e)
        invariant fresh(it) && fresh(e) && it != e && e.pos == |words|
        invariant k <= |insts| && it.pos == Start(insts, k)
        invariant stripped == KeptWords(words, k)
        decreases |words| - it.pos
      {
        StepAtStart(words, k);
        var inst := it.Deref(this);
        if !IsDebugInstruction(inst.opcode) {
          stripped := stripped + words[it.pos..it.pos + inst.nargs + 1];
        }
        it.Increment(this);
        k := k + 1;
      }
      if k < |insts| {
        StepAtStart(words, k);
      }
      assert insts[..k] == insts;
      KeptWordsAreStripped(words, k);
      r := new InstructionStream(stripped);
    }
  }
}
