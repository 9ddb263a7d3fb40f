/**
 * The parts of `ShaderModuleSpirV` that rewrite its instruction stream:
 * `remap_locations`, which renumbers the Location decorations of the
 * variables of one storage class through a map, and `strip`.
 *
 * `remap_locations` needs to know which ids are variables of which storage
 * class; that is what parsing the module records in its table of
 * definitions.  Parsing is not part of this model, so the table is a
 * parameter.
 */
module ShaderModules {
  import opened SpirV
  import opened InstructionStreams
  import opened Definitions

  const TWO_32: int := 0x1_0000_0000

  /** A `uint32_t` operand read as the `int` key of a `pmap<int, int>` (two's complement). */
  function AsInt(w: Word): (v: int)
    ensures -0x8000_0000 <= v < 0x8000_0000
    ensures v % TWO_32 == w
  {
    if w < 0x8000_0000 then w else w - TWO_32
  }

  /** An `int` stored into a `uint32_t` operand: its value modulo 2^32. */
  function AsWord(v: int): (w: Word)
    ensures (w - v) % TWO_32 == 0
  {
    v % TWO_32
  }

  /** Storing a word's own `int` reading gives the word back. */
  lemma AsWordOfAsInt(w: Word)
    ensures AsWord(AsInt(w)) == w
  {
  }

  /** Whether the definitions table records `id` as a variable of the given storage class. */
  predicate IsVariableOf(defs: seq<Definition>, storageClass: Word, id: Word)
    reads defs
  {
    id < |defs| && defs[id].dtype == DtVariable && defs[id].storageClass == storageClass
  }

  /** The ids that the definitions table records as variables of the given storage class. */
  function VariablesOf(defs: seq<Definition>, storageClass: Word): (ids: set<Word>)
    reads defs
    ensures forall id: Word :: id in ids <==> IsVariableOf(defs, storageClass, id)
  {
    set id: Word | IsVariableOf(defs, storageClass, id)
  }

  /** `OpDecorate <target> Location <literal>`. */
  predicate IsLocationDecoration(i: Inst)
  {
    i.opcode == OP_DECORATE && |i.args| >= 3 && i.args[1] == DECORATION_LOCATION
  }

  /** The instruction with its location operand renumbered, when it is a Location decoration of a target whose location the map holds. */
  predicate Remaps(i: Inst, targets: set<Word>, locations: map<int, int>)
  {
    IsLocationDecoration(i) && i.args[0] in targets && AsInt(i.args[2]) in locations
  }

  function RemapInst(i: Inst, targets: set<Word>, locations: map<int, int>): (r: Inst)
    ensures r.opcode == i.opcode && |r.args| == |i.args|
    ensures forall a :: 0 <= a < |i.args| && a != 2 ==> r.args[a] == i.args[a]
    ensures Remaps(i, targets, locations) ==> r.args[2] == AsWord(locations[AsInt(i.args[2])])
    ensures !Remaps(i, targets, locations) ==> r == i
  {
    if Remaps(i, targets, locations) then Inst(i.opcode, i.args[2 := AsWord(locations[AsInt(i.args[2])])])
    else i
  }

  function RemapInsts(insts: seq<Inst>, targets: set<Word>, locations: map<int, int>): (r: seq<Inst>)
    ensures |r| == |insts|
    ensures forall k :: 0 <= k < |insts| ==> r[k] == RemapInst(insts[k], targets, locations)
  {
    seq(|insts|, k requires 0 <= k < |insts| => RemapInst(insts[k], targets, locations))
  }

  /** Two instruction lists whose instructions have pairwise the same number of arguments. */
  predicate SameShape(a: seq<Inst>, b: seq<Inst>)
  {
    |a| == |b| && forall k :: 0 <= k < |a| ==> |a[k].args| == |b[k].args|
  }

  lemma {:induction false} SameShapeSameLength(a: seq<Inst>, b: seq<Inst>)
    requires SameShape(a, b)
    ensures |Encode(a)| == |Encode(b)|
    decreases |a|
  {
    if a != [] {
      assert SameShape(a[1..], b[1..]) by {
        forall k | 0 <= k < |a[1..]| ensures |a[1..][k].args| == |b[1..][k].args| {
          assert a[1..][k] == a[k + 1] && b[1..][k] == b[k + 1];
        }
      }
      SameShapeSameLength(a[1..], b[1..]);
    }
  }

  /** Instruction lists of the same shape start each instruction at the same offset. */
  lemma SameShapeSameStarts(a: seq<Inst>, b: seq<Inst>, k: nat)
    requires SameShape(a, b) && k <= |a|
    ensures Start(a, k) == Start(b, k)
  {
    assert SameShape(a[..k], b[..k]) by {
      forall j | 0 <= j < k ensures |a[..k][j].args| == |b[..k][j].args| {
        assert a[..k][j] == a[j] && b[..k][j] == b[j];
      }
    }
    SameShapeSameLength(a[..k], b[..k]);
  }

  /** Remapping keeps every instruction's argument count, so every word count still fits. */
  lemma RemapInstsShape(insts: seq<Inst>, targets: set<Word>, locations: map<int, int>)
    ensures SameShape(RemapInsts(insts, targets, locations), insts)
    ensures AllFit(insts) ==> AllFit(RemapInsts(insts, targets, locations))
  {
    var remapped := RemapInsts(insts, targets, locations);
    if AllFit(insts) {
      forall k | 0 <= k < |remapped| ensures Fits(remapped[k]) {
        assert Fits(insts[k]);
      }
    }
  }

  /** Remapping works instruction by instruction: it distributes over concatenation. */
  lemma RemapInstsAppend(a: seq<Inst>, b: seq<Inst>, targets: set<Word>, locations: map<int, int>)
    ensures RemapInsts(a + b, targets, locations) == RemapInsts(a, targets, locations) + RemapInsts(b, targets, locations)
  {
    var whole, left, right := RemapInsts(a + b, targets, locations), RemapInsts(a, targets, locations), RemapInsts(b, targets, locations);
    forall k | 0 <= k < |whole| ensures whole[k] == (left + right)[k] {
      if k >= |a| {
        assert (a + b)[k] == b[k - |a|];
      }
    }
  }

  /**
   * The words after `remap_locations`: the same header and the instructions
   * with their Location operands renumbered.  No word count, opcode or
   * length changes.
   */
  function RemappedWords(words: seq<Word>, targets: set<Word>, locations: map<int, int>): (r: seq<Word>)
    requires WellFormed(words)
    ensures WellFormed(r) && Instructions(r) == RemapInsts(Instructions(words), targets, locations)
    ensures r[..HEADER_SIZE] == words[..HEADER_SIZE]
    ensures |r| == |words|
  {
    var insts := Instructions(words);
    var remapped := RemapInsts(insts, targets, locations);
    EncodeParse(words[HEADER_SIZE..]);
    RemapInstsShape(insts, targets, locations);
    ParseEncode(remapped);
    SameShapeSameLength(remapped, insts);
    var r := words[..HEADER_SIZE] + Encode(remapped);
    assert r[HEADER_SIZE..] == Encode(remapped);
    r
  }

  /** A map that sends every location it holds to itself changes no instruction. */
  lemma RemapIdentity(words: seq<Word>, targets: set<Word>, locations: map<int, int>)
    requires WellFormed(words)
    requires forall l :: l in locations ==> locations[l] == l
    ensures RemappedWords(words, targets, locations) == words
  {
    var insts := Instructions(words);
    var remapped := RemapInsts(insts, targets, locations);
    forall k | 0 <= k < |insts| ensures remapped[k] == insts[k] {
      var i := insts[k];
      if Remaps(i, targets, locations) {
        AsWordOfAsInt(i.args[2]);
        assert i.args[2 := AsWord(locations[AsInt(i.args[2])])] == i.args;
      }
    }
    assert remapped == insts;
    WordsDetermined(RemappedWords(words, targets, locations), words);
  }

  /** In particular the empty map leaves the words as they are. */
  lemma RemapEmpty(words: seq<Word>, targets: set<Word>)
    requires WellFormed(words)
    ensures RemappedWords(words, targets, map[]) == words
  {
    RemapIdentity(words, targets, map[]);
  }

  /** Remapping one instruction can change only its fourth word, the location operand. */
  lemma RemapInstWords(i: Inst, targets: set<Word>, locations: map<int, int>, j: nat)
    requires j < |EncodeInst(i)|
    ensures |EncodeInst(RemapInst(i, targets, locations))| == |EncodeInst(i)|
    ensures EncodeInst(RemapInst(i, targets, locations))[j] != EncodeInst(i)[j] ==>
      j == 3 && Remaps(i, targets, locations)
  {
    var r := RemapInst(i, targets, locations);
    if j > 0 {
      assert EncodeInst(r)[j] == EncodeInst(r)[1..][j - 1] == r.args[j - 1];
      assert EncodeInst(i)[j] == EncodeInst(i)[1..][j - 1] == i.args[j - 1];
    }
  }

  /**
   * Every instruction keeps its offset and its word count, and the only
   * words that can differ are the literal operands of Location decorations
   * on targets whose location the map holds.
   */
  lemma RemapChangesOnlyLocations(words: seq<Word>, targets: set<Word>, locations: map<int, int>, w: nat) returns (k: nat)
    requires WellFormed(words)
    requires w < |words|
    requires RemappedWords(words, targets, locations)[w] != words[w]
    ensures k < |Instructions(words)|
    ensures w == Start(Instructions(words), k) + 3
    ensures Remaps(Instructions(words)[k], targets, locations)
  {
    var r := RemappedWords(words, targets, locations);
    var insts := Instructions(words);
    assert w >= HEADER_SIZE;
    assert Start(insts, 0) == HEADER_SIZE by {
      assert insts[..0] == [];
    }
    k := LocateFrom(words, w, 0);
    var p, q := Start(insts, k), Start(insts, k + 1);
    RemapWordsAt(words, targets, locations, k);
    assert r[w] == r[p..q][w - p] && words[w] == words[p..q][w - p];
    RemapInstWords(insts[k], targets, locations, w - p);
  }

  /** Instruction `k` of the remapped words sits where it sat before, encoded from its remapped form. */
  lemma RemapWordsAt(words: seq<Word>, targets: set<Word>, locations: map<int, int>, k: nat)
    requires WellFormed(words) && k < |Instructions(words)|
    ensures var insts := Instructions(words);
      var r := RemappedWords(words, targets, locations);
      var p, q := Start(insts, k), Start(insts, k + 1);
      && p <= q <= |r|
      && r[p..q] == EncodeInst(RemapInst(insts[k], targets, locations))
      && words[p..q] == EncodeInst(insts[k])
  {
    var r := RemappedWords(words, targets, locations);
    var insts := Instructions(words);
    var remapped := Instructions(r);
    assert SameShape(remapped, insts);
    SameShapeSameStarts(remapped, insts, k);
    SameShapeSameStarts(remapped, insts, k + 1);
    InstructionWords(words, k);
    InstructionWords(r, k);
  }

  class ShaderModuleSpirV {
    var instructions: InstructionStream

    /** Wraps a stream of words; the parsing that the program's constructor goes on to do is not part of this model. */
    constructor (words: seq<Word>)
      ensures fresh(instructions) && instructions.words == words
    {
      instructions := new InstructionStream(words);
    }

    /**
     * Walks every instruction; on each `OpDecorate ... Location n` whose
     * target `defs` records as a variable of `storageClass`, and whose
     * location `n` the map holds, overwrites `n` with its image.
     */
    method RemapLocations(storageClass: Word, locations: map<int, int>, defs: seq<Definition>)
      requires WellFormed(instructions.words)
      modifies instructions
      ensures instructions.words == RemappedWords(old(instructions.words), VariablesOf(defs, storageClass), locations)
    {
      ghost var before := instructions.words;
      ghost var insts := Instructions(before);
      var it := instructions.Begin();
      var e := instructions.End();
      ghost var k := 0;
      EndIsLastStart(before);
      while !it.Equals(e)
        invariant fresh(it) && fresh(e) && it != e
        invariant k <= |insts|
        invariant instructions.words == PartlyRemapped(before, VariablesOf(defs, storageClass), locations, k)
        invariant it.pos == Start(insts, k) && e.pos == |before|
        decreases |insts| - k
      {
        RemapAt(it, storageClass, locations, defs, before, k);
        it.Increment(instructions);
        k := k + 1;
      }
      if k < |insts| {
        StepAtStart(before, k);
      }
      PartlyRemappedAll(before, VariablesOf(defs, storageClass), locations);
    }

    /**
     * One turn of the loop in `remap_locations`: if the instruction under the
     * cursor is `OpDecorate <id> Location <n>`, `defs` records `id` as a
     * variable of `storageClass` and the map holds `n`, overwrites `n` with
     * its image.
     */
    method RemapAt(it: InstructionIterator, storageClass: Word, locations: map<int, int>, defs: seq<Definition>, ghost before: seq<Word>, ghost k: nat)
      requires WellFormed(before) && k < |Instructions(before)|
      requires instructions.words == PartlyRemapped(before, VariablesOf(defs, storageClass), locations, k)
      requires it.pos == Start(Instructions(before), k)
      modifies instructions
      ensures instructions.words == PartlyRemapped(before, VariablesOf(defs, storageClass), locations, k + 1)
      ensures it.pos < |instructions.words|
      ensures Start(Instructions(before), k + 1) == it.pos + WordCount(instructions.words[it.pos])
    {
      ghost var targets := VariablesOf(defs, storageClass);
      PartlyRemappedAt(before, targets, locations, k);
      PartlyRemappedNext(before, targets, locations, k);
      var inst := it.Deref(instructions);
      var args := inst.args;
      if inst.opcode == OP_DECORATE && inst.nargs >= 3 && instructions.words[args + 1] == DECORATION_LOCATION {
        var id := instructions.words[args];
        if IsVariableOf(defs, storageClass, id) {
          var key := AsInt(instructions.words[args + 2]);
          if key in locations {
            instructions.words := instructions.words[args + 2 := AsWord(locations[key])];
          }
        }
      }
    }

    /** Replaces the stream by its stripped copy. */
    method Strip()
      requires WellFormed(instructions.words)
      modifies this
      ensures fresh(instructions)
      ensures instructions.words == StrippedWords(old(instructions.words))
    {
      instructions := instructions.Strip();
    }
  }

  /** The instruction list once the first `k` instructions are remapped. */
  function RemapPrefix(insts: seq<Inst>, targets: set<Word>, locations: map<int, int>, k: nat): seq<Inst>
    requires k <= |insts|
  {
    RemapInsts(insts[..k], targets, locations) + insts[k..]
  }

  /** Remapping a prefix changes no instruction's length. */
  lemma RemapPrefixShape(insts: seq<Inst>, targets: set<Word>, locations: map<int, int>, k: nat)
    requires k <= |insts|
    ensures SameShape(RemapPrefix(insts, targets, locations, k), insts)
    ensures AllFit(insts) ==> AllFit(RemapPrefix(insts, targets, locations, k))
  {
    var mid := RemapPrefix(insts, targets, locations, k);
    forall j | 0 <= j < |mid| ensures |mid[j].args| == |insts[j].args| && (Fits(insts[j]) ==> Fits(mid[j])) {
      if j < k {
        assert mid[j] == RemapInst(insts[..k][j], targets, locations);
      } else {
        assert mid[j] == insts[k..][j - k];
      }
    }
  }

  /**
   * The words once `remap_locations` has visited the first `k` instructions:
   * each of them that is to be remapped has had its location operand
   * overwritten, and nothing else has changed.
   */
  ghost function PartlyRemapped(words: seq<Word>, targets: set<Word>, locations: map<int, int>, k: nat): (r: seq<Word>)
    requires WellFormed(words) && k <= |Instructions(words)|
    ensures |r| == |words|
    decreases k
  {
    if k == 0 then words
    else
      var prev := PartlyRemapped(words, targets, locations, k - 1);
      var i := Instructions(words)[k - 1];
      if Remaps(i, targets, locations) then
        ArgsAtStart(words, k - 1);
        prev[Start(Instructions(words), k - 1) + 3 := AsWord(locations[AsInt(i.args[2])])]
      else prev
  }

  /** One more step of the walk: instruction `k` has its location operand overwritten if it is to be remapped. */
  lemma PartlyRemappedNext(words: seq<Word>, targets: set<Word>, locations: map<int, int>, k: nat)
    requires WellFormed(words) && k < |Instructions(words)|
    ensures var insts := Instructions(words);
      Remaps(insts[k], targets, locations) ==>
        && Start(insts, k) + 3 < |words|
        && PartlyRemapped(words, targets, locations, k + 1) ==
           PartlyRemapped(words, targets, locations, k)[Start(insts, k) + 3 := AsWord(locations[AsInt(insts[k].args[2])])]
    ensures !Remaps(Instructions(words)[k], targets, locations) ==>
      PartlyRemapped(words, targets, locations, k + 1) == PartlyRemapped(words, targets, locations, k)
  {
    ArgsAtStart(words, k);
  }

  /** The partly remapped words are a module whose instructions are the partly remapped list. */
  lemma {:induction false} PartlyRemappedParses(words: seq<Word>, targets: set<Word>, locations: map<int, int>, k: nat)
    requires WellFormed(words) && k <= |Instructions(words)|
    ensures var r := PartlyRemapped(words, targets, locations, k);
      && WellFormed(r)
      && Instructions(r) == RemapPrefix(Instructions(words), targets, locations, k)
      && r[..HEADER_SIZE] == words[..HEADER_SIZE]
    decreases k
  {
    var insts := Instructions(words);
    if k == 0 {
      assert insts[..0] == [] && insts[0..] == insts;
    } else {
      PartlyRemappedParses(words, targets, locations, k - 1);
      var cur := PartlyRemapped(words, targets, locations, k - 1);
      if Remaps(insts[k - 1], targets, locations) {
        var v := AsWord(locations[AsInt(insts[k - 1].args[2])]);
        PartlyRemappedStart(words, targets, locations, k - 1);
        SetArgAtStart(cur, k - 1, 2, v);
        var after := cur[Start(insts, k - 1) + 3 := v];
        assert after[..HEADER_SIZE] == cur[..HEADER_SIZE];
        RemapPrefixWrite(insts, targets, locations, k - 1);
      } else {
        RemapPrefixSkip(insts, targets, locations, k - 1);
      }
    }
  }

  /** After the walk every instruction is remapped. */
  lemma PartlyRemappedAll(words: seq<Word>, targets: set<Word>, locations: map<int, int>)
    requires WellFormed(words)
    ensures PartlyRemapped(words, targets, locations, |Instructions(words)|) == RemappedWords(words, targets, locations)
  {
    var insts := Instructions(words);
    PartlyRemappedParses(words, targets, locations, |insts|);
    assert insts[..|insts|] == insts && insts[|insts|..] == [];
    WordsDetermined(PartlyRemapped(words, targets, locations, |insts|), RemappedWords(words, targets, locations));
  }

  /** Instruction `k` starts at the same offset in the partly remapped words as in the original, and is unchanged. */
  lemma PartlyRemappedStart(words: seq<Word>, targets: set<Word>, locations: map<int, int>, k: nat)
    requires WellFormed(words) && k < |Instructions(words)|
    ensures var mid := RemapPrefix(Instructions(words), targets, locations, k);
      && mid[k] == Instructions(words)[k]
      && Start(mid, k) == Start(Instructions(words), k)
      && Start(mid, k + 1) == Start(Instructions(words), k + 1)
  {
    var insts := Instructions(words);
    var mid := RemapPrefix(insts, targets, locations, k);
    assert mid[k] == insts[k..][0];
    RemapPrefixShape(insts, targets, locations, k);
    SameShapeSameStarts(mid, insts, k);
    SameShapeSameStarts(mid, insts, k + 1);
  }

  /**
   * What the loop reads at instruction `k`: it sits where it sat in the
   * original words, and its opcode, word count and operands are unchanged.
   */
  lemma PartlyRemappedAt(words: seq<Word>, targets: set<Word>, locations: map<int, int>, k: nat)
    requires WellFormed(words) && k < |Instructions(words)|
    ensures var insts := Instructions(words);
      var cur := PartlyRemapped(words, targets, locations, k);
      var p := Start(insts, k);
      && Fits(insts[k])
      && p + 1 + |insts[k].args| == Start(insts, k + 1) <= |cur|
      && Decode(cur, p) == Instruction(insts[k].opcode, |insts[k].args|, p + 1)
      && Start(insts, k + 1) == p + WordCount(cur[p])
      && (|insts[k].args| >= 3 ==>
            cur[p + 1] == insts[k].args[0] && cur[p + 2] == insts[k].args[1] && cur[p + 3] == insts[k].args[2])
  {
    var insts := Instructions(words);
    var cur := PartlyRemapped(words, targets, locations, k);
    PartlyRemappedParses(words, targets, locations, k);
    PartlyRemappedStart(words, targets, locations, k);
    StepAtStart(cur, k);
    var p := Start(insts, k);
    if |insts[k].args| >= 3 {
      ArgsAtStart(cur, k);
    }
  }

  /** Remapping instruction `k` of the prefix list replaces its location operand. */
  lemma RemapPrefixWrite(insts: seq<Inst>, targets: set<Word>, locations: map<int, int>, k: nat)
    requires k < |insts| && Remaps(insts[k], targets, locations)
    ensures var mid := RemapPrefix(insts, targets, locations, k);
      RemapPrefix(insts, targets, locations, k + 1) ==
      mid[k := Inst(insts[k].opcode, insts[k].args[2 := AsWord(locations[AsInt(insts[k].args[2])])])]
  {
    var done := RemapInsts(insts[..k], targets, locations);
    assert RemapInsts(insts[..k + 1], targets, locations) == done + [RemapInst(insts[k], targets, locations)];
    assert insts[k..] == [insts[k]] + insts[k + 1..];
  }

  /** Visiting an instruction that is not to be remapped leaves the list as it was. */
  lemma RemapPrefixSkip(insts: seq<Inst>, targets: set<Word>, locations: map<int, int>, k: nat)
    requires k < |insts| && !Remaps(insts[k], targets, locations)
    ensures RemapPrefix(insts, targets, locations, k + 1) == RemapPrefix(insts, targets, locations, k)
  {
    var done := RemapInsts(insts[..k], targets, locations);
    assert RemapInsts(insts[..k + 1], targets, locations) == done + [insts[k]];
    assert insts[k..] == [insts[k]] + insts[k + 1..];
  }
}
