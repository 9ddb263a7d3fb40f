# SPIR-V instruction streams of `ShaderModuleSpirV`

This project models the word-buffer machinery of Panda3D's SPIR-V shader
module, `ShaderModuleSpirV` (panda/src/shaderpipeline/shaderModuleSpirV.h),
and proves properties of the model in Dafny. The model covers:

- the `InstructionStream` container: a vector of 32-bit words that holds a
  SPIR-V module;
- the `InstructionIterator` cursor that walks it, and the `Instruction`
  view that dereferencing yields;
- the in-place edits `insert`, `erase` and `erase_arg`;
- the id bound, with `get_id_bound` and `allocate_id`;
- the copy without debug instructions, `strip`;
- the per-id `Definition` record that parsing fills in;
- `remap_locations`, which renumbers the Location decorations of the
  variables of one storage class.

Only the header of the class is available. Its inline (`.I`) and out-of-line
(`.cxx`) bodies are not part of this model. The behaviour modelled for each
declaration comes from three sources:

- its name, parameters and `const`-ness;
- the field initializers of `Definition`;
- the binary layout in section 2.3 ("Physical Layout of a SPIR-V Module and
  Instruction") and section 2.4 ("Logical Layout of a Module") of the SPIR-V
  Specification.

Files:

- `spirv.dfy` (module `SpirV`): the physical layout.
  - The words are a 5-word header followed by instructions. The header holds
    the magic number `0x07230203`, then the version, the generator, the id
    bound in word 3, and the schema.
  - An instruction's first word is `wordCount << 16 | opcode`. The word count
    includes that first word.
  - There is a reference decoding `ParseBody` of the words after the header
    into instructions `Inst(opcode, args)`, and an encoding `Encode`. The two
    are proved inverse to each other.
- `instruction_stream.dfy` (module `InstructionStreams`):
  - the `Instruction` record and the `InstructionIterator` and
    `InstructionStream` classes;
  - every edit, stated as a function of the old words. A lemma beside each
    edit, or for `allocate_id` a clause of its contract, says what the edit
    does to the decoded instruction list.
- `definition.dfy` (module `Definitions`): the `Definition` class with its
  defaults, setters, `clear` and `mark_used`.
- `shader_module_spirv.dfy` (module `ShaderModules`): the
  `ShaderModuleSpirV` class, with its `_instructions` stream,
  `remap_locations` and `strip`.

Modelling choices:

- **Words.** A word is an integer in `0 .. 2^32-1`. Shifts and masks become
  division and remainder by `2^16`.
- **Iterators.** An iterator is an object holding a word offset, in place of
  the `uint32_t *` cursor.
- **Out-of-range word counts.** `FirstWord` keeps only the low 16 bits of
  the word count. This is a choice of the model: the count is `uint16_t nargs
  + 1`, which C++ promotes to `int`, and what `65536 << 16` yields there is
  not fixed by the declaration.
- **Dereferencing a zero word count.** `nargs` is `(w >> 16) - 1` in
  `uint32_t` arithmetic, so it reads `0xFFFFFFFF`.
- **`allocate_id`.** The bound advances modulo 2^32.
- **`remap_locations`.** The `pmap<int, int>` of locations is a Dafny `map<int, int>`. A literal
  operand word is read as a two's-complement `int` to look it up (`AsInt`).
  The image is written back modulo 2^32 (`AsWord`).
- **The initializer-list `insert`.** It passes the list's length on as the
  `uint16_t nargs` of the other overload, that is, modulo 2^16.

## Model

| member | source | states |
|---|---|---|
| SpirV.FirstWord | panda/src/shaderpipeline/shaderModuleSpirV.h:87-88 | The first word of an instruction holds the word count modulo 2^16 in its count field and the opcode in its low half. |
| SpirV.FirstWordOfFields | panda/src/shaderpipeline/shaderModuleSpirV.h:54 | Splitting any word into word count and opcode and joining them again gives the same word. |
| SpirV.EncodeInstSetArg | panda/src/shaderpipeline/shaderModuleSpirV.h:44-48 | Writing argument `a` through the `args` pointer changes exactly word `1 + a` of the instruction's encoding. |
| SpirV.ParseFits | panda/src/shaderpipeline/shaderModuleSpirV.h:44-48 | Every instruction decoded from a module has a word count that fits the 16-bit field. |
| SpirV.EncodeParse | panda/src/shaderpipeline/shaderModuleSpirV.h:44-62 | Any words that decode into instructions re-encode to exactly the same words. |
| SpirV.ParseEncode | panda/src/shaderpipeline/shaderModuleSpirV.h:44-62 | Instructions whose word counts fit decode back from their encoding. This is the other direction of the round trip. |
| SpirV.ParseAppend | panda/src/shaderpipeline/shaderModuleSpirV.h:44-62 | Decoding runs instruction by instruction: encoded instructions followed by other words decode into those instructions followed by whatever the rest decodes into, or fail if the rest fails. |
| SpirV.EncodeAppend | panda/src/shaderpipeline/shaderModuleSpirV.h:44-62 | The encoding of two instruction lists laid end to end is the two encodings laid end to end. |
| InstructionStreams.Decode | panda/src/shaderpipeline/shaderModuleSpirV.h:44-48 | Dereferencing at a word gives: the word's low 16 bits as the opcode; the word count minus one as `nargs`, or `0xFFFFFFFF` when the count is 0; and the next offset as `args`. |
| InstructionStreams.DecodeAtStart | panda/src/shaderpipeline/shaderModuleSpirV.h:54 | At the start of instruction `k`, the words up to the start of instruction `k + 1` are its encoding, and dereferencing yields its opcode, its argument count and its argument words. |
| InstructionStreams.StepAtStart | panda/src/shaderpipeline/shaderModuleSpirV.h:55 | From the start of instruction `k`, the word count leads to the start of instruction `k + 1`, which lies within the words. |
| InstructionStreams.WalkVisitsStarts | panda/src/shaderpipeline/shaderModuleSpirV.h:84-86 | Applying `++` `k` times from `begin()` lands on the start of instruction `k`. |
| InstructionStreams.IterationReachesEnd | panda/src/shaderpipeline/shaderModuleSpirV.h:84-86 | On a well-formed stream, one `++` per instruction from `begin()` lands exactly on `end()`, and every earlier position is before `end()`. |
| InstructionStreams.EndIsLastStart | panda/src/shaderpipeline/shaderModuleSpirV.h:86 | The position after the last instruction is the number of words. |
| InstructionStreams.WordsDetermined | panda/src/shaderpipeline/shaderModuleSpirV.h:101 | Two well-formed streams with the same header and the same decoded instructions are the same words. |
| InstructionStreams.LocateFrom | panda/src/shaderpipeline/shaderModuleSpirV.h:84-86 | Every word after the header of a well-formed stream lies inside exactly one instruction: the returned index satisfies Start(j) <= w < Start(j+1). |
| InstructionStreams.InstructionIterator.constructor | panda/src/shaderpipeline/shaderModuleSpirV.h:60 | An iterator made at an offset points at that offset. |
| InstructionStreams.InstructionIterator.Deref | panda/src/shaderpipeline/shaderModuleSpirV.h:54 | `operator *` returns the decoding of the word under the cursor. |
| InstructionStreams.InstructionIterator.Equals | panda/src/shaderpipeline/shaderModuleSpirV.h:56-57 | Two iterators are equal exactly when they point at the same word; `!=` is its negation, which the loops test against `end()`. |
| InstructionStreams.InstructionIterator.Increment | panda/src/shaderpipeline/shaderModuleSpirV.h:55 | `operator ++` advances the cursor by the word count of the instruction under it, and changes nothing else. |
| InstructionStreams.InstructionStream.constructor | panda/src/shaderpipeline/shaderModuleSpirV.h:75-76 | A stream made from words holds exactly those words. |
| InstructionStreams.InstructionStream.Empty | panda/src/shaderpipeline/shaderModuleSpirV.h:74 | A default-constructed stream holds no words. |
| InstructionStreams.InstructionStream.ValidateHeader | panda/src/shaderpipeline/shaderModuleSpirV.h:78 | True exactly when there are at least the five header words and word 0 is the magic number `0x07230203`. |
| InstructionStreams.InstructionStream.Begin | panda/src/shaderpipeline/shaderModuleSpirV.h:84 | `begin()` points at word 5, the first word after the header. |
| InstructionStreams.InstructionStream.End | panda/src/shaderpipeline/shaderModuleSpirV.h:86 | `end()` points one past the last word. |
| InstructionStreams.FirstNonPreamble | panda/src/shaderpipeline/shaderModuleSpirV.h:85 | The index of the first instruction that does not belong to a section before the annotations: all before it do, and it does not, unless it is the end. |
| InstructionStreams.InstructionStream.BeginAnnotations | panda/src/shaderpipeline/shaderModuleSpirV.h:85 | `begin_annotations()` walks from `begin()` past the capabilities, extensions, imports, memory model, entry points, execution modes and debug instructions. It returns the start of the first instruction after them, or `end()`. |
| InstructionStreams.InsertedWords | panda/src/shaderpipeline/shaderModuleSpirV.h:87-88 | After an insert there are `nargs + 1` more words. The words before the iterator are unchanged. The new instruction's first word and argument words come next. Then the old words from the iterator on follow, shifted. |
| InstructionStreams.InstructionStream.Insert | panda/src/shaderpipeline/shaderModuleSpirV.h:87 | The initializer-list `insert` inserts the list, its length taken as a `uint16_t`. It returns an iterator at the new instruction, which decodes to the given opcode and arguments when its word count fits. |
| InstructionStreams.InstructionStream.InsertWords | panda/src/shaderpipeline/shaderModuleSpirV.h:88 | `insert(it, op, args, nargs)` puts the first word and the first `nargs` argument words before `it`. It returns an iterator at them, which decodes to `op` with `nargs` arguments when the word count fits. |
| InstructionStreams.InsertAtStart | panda/src/shaderpipeline/shaderModuleSpirV.h:87-88 | Inserting a fitting instruction at the start of instruction `k` keeps the stream well formed. The instruction enters the decoded list at index `k`, and the header is unchanged. |
| InstructionStreams.InsertOverlongBreaksStream | panda/src/shaderpipeline/shaderModuleSpirV.h:88 | Inserting 65535 argument words makes a word count of 65536, which the 16-bit field cannot hold: the words no longer decode. |
| InstructionStreams.ErasedWords | panda/src/shaderpipeline/shaderModuleSpirV.h:89 | Erasing removes exactly the word count of the instruction at the iterator. Every word before it is unchanged, and every word after it is kept, shifted down. |
| InstructionStreams.InstructionStream.Erase | panda/src/shaderpipeline/shaderModuleSpirV.h:89 | `erase(it)` removes the instruction's words and returns an iterator at the same offset, where the following instruction now starts. |
| InstructionStreams.EraseAtStart | panda/src/shaderpipeline/shaderModuleSpirV.h:89 | Erasing instruction `k` removes exactly it from the decoded list. The stream stays well formed, the header is unchanged, and the next instruction starts where the erased one did. |
| InstructionStreams.ArgErasedWords | panda/src/shaderpipeline/shaderModuleSpirV.h:90 | `erase_arg` leaves one word fewer. The first word keeps its opcode and has a word count one lower. The arguments before `arg` stay, argument `arg` is gone, and everything after it is kept, shifted down. |
| InstructionStreams.InstructionStream.EraseArg | panda/src/shaderpipeline/shaderModuleSpirV.h:90 | `erase_arg(it, arg)`, for `arg < nargs`, removes the argument word and writes back the decremented word count. It returns an iterator at the same instruction. |
| InstructionStreams.EraseArgAtStart | panda/src/shaderpipeline/shaderModuleSpirV.h:90 | Removing an argument keeps the stream well formed. Exactly that argument of instruction `k` disappears from the decoded list, and the header is unchanged. |
| InstructionStreams.SetArgAtStart | panda/src/shaderpipeline/shaderModuleSpirV.h:44-48 | Overwriting argument `a` through the `args` pointer of instruction `k` keeps the stream well formed and changes only that argument in the decoded list. |
| InstructionStreams.Splice | panda/src/shaderpipeline/shaderModuleSpirV.h:87-90 | Replacing the words of instructions `k` up to `j` by the encoding of fitting instructions replaces exactly those instructions in the decoded list and keeps the header. |
| InstructionStreams.InstructionStream.GetIdBound | panda/src/shaderpipeline/shaderModuleSpirV.h:95 | The id bound is header word 3 of the stream. |
| InstructionStreams.AllocatedIds | panda/src/shaderpipeline/shaderModuleSpirV.h:96 | The ids returned by `n` successive allocations form a sequence of exactly `n` entries. |
| InstructionStreams.InstructionStream.AllocateId | panda/src/shaderpipeline/shaderModuleSpirV.h:95-96 | `allocate_id()` returns the current `get_id_bound()` (header word 3), raises the bound by one modulo 2^32, leaves every other word as it was, and the new bound is the next id allocated. A well-formed stream stays well formed and decodes into the same instructions. |
| InstructionStreams.InstructionStream.AllocateIds | panda/src/shaderpipeline/shaderModuleSpirV.h:96 | `n` calls of `allocate_id()` in a row return exactly `AllocatedIds` of the starting bound, and leave the bound advanced by `n` modulo 2^32 with every other word unchanged. |
| InstructionStreams.BoundWriteKeepsInstructions | panda/src/shaderpipeline/shaderModuleSpirV.h:95-96 | Writing the bound, a header word, keeps a well-formed stream well formed and its decoded instructions unchanged. |
| InstructionStreams.AllocatedIdsCount | panda/src/shaderpipeline/shaderModuleSpirV.h:96 | The `j`-th of successive allocations is the starting bound plus `j`, modulo 2^32. |
| InstructionStreams.AllocatedIdsFresh | panda/src/shaderpipeline/shaderModuleSpirV.h:96 | While the bound does not pass 2^32, the `j`-th of the allocations `AllocateIds` performs is exactly the starting bound plus `j`: the ids are distinct and none is below the starting bound. That no id at or above the bound is in use is a rule of the SPIR-V format, which this model neither states nor maintains. |
| InstructionStreams.AllocatedIdsWrap | panda/src/shaderpipeline/shaderModuleSpirV.h:96 | Starting at bound `0xFFFFFFFF`, the second allocation returns id 0: the bound wraps. |
| InstructionStreams.StripInsts | panda/src/shaderpipeline/shaderModuleSpirV.h:82 | The stripped list is no longer than the original, contains no debug instruction, and contains only instructions of the original. |
| InstructionStreams.StripKeeps | panda/src/shaderpipeline/shaderModuleSpirV.h:82 | Every instruction of the original that is not a debug instruction is in the stripped list. |
| InstructionStreams.StripWithoutDebug | panda/src/shaderpipeline/shaderModuleSpirV.h:82 | A list without debug instructions strips to itself. With `StripAppend` and the contract of `StripInsts`, this fixes the result of stripping every list. |
| InstructionStreams.StripAppend | panda/src/shaderpipeline/shaderModuleSpirV.h:82 | Stripping distributes over concatenation, so it keeps the order of the kept instructions. |
| InstructionStreams.StripIdempotent | panda/src/shaderpipeline/shaderModuleSpirV.h:82 | Stripping a stripped list changes nothing. |
| InstructionStreams.StripShrinks | panda/src/shaderpipeline/shaderModuleSpirV.h:82 | The stripped instructions never take more words than the original ones. |
| InstructionStreams.KeptWordsAreStripped | panda/src/shaderpipeline/shaderModuleSpirV.h:82 | What the copying walk of `strip` has gathered after `k` instructions is the header followed by the encoding of the stripped first `k` instructions. |
| InstructionStreams.StrippedWords | panda/src/shaderpipeline/shaderModuleSpirV.h:82 | The stripped words are well formed, keep the header, decode into the stripped instruction list, and are no longer than the original. |
| InstructionStreams.StrippedWordsIdempotent | panda/src/shaderpipeline/shaderModuleSpirV.h:82 | Stripping a stripped stream gives the same words. |
| InstructionStreams.InstructionStream.Strip | panda/src/shaderpipeline/shaderModuleSpirV.h:82 | `strip()` is `const`: a fresh stream holding the stripped words is returned, and the receiver is not modified. |
| Definitions.WithMemberName | panda/src/shaderpipeline/shaderModuleSpirV.h:134 | Naming member `i` grows the list with empty names to at least `i + 1` entries. Member `i` gets the name, and every other entry keeps its name or is empty. |
| Definitions.Definition.constructor | panda/src/shaderpipeline/shaderModuleSpirV.h:121-128 | A new record has type `DT_none`, no name, no type, location -1, built-in `BuiltInMax`, constant 0, no member names, and is not used. |
| Definitions.Definition.Clear | panda/src/shaderpipeline/shaderModuleSpirV.h:144 | `clear()` returns every field to its default and leaves the storage class alone. |
| Definitions.Definition.SetName | panda/src/shaderpipeline/shaderModuleSpirV.h:133 | Sets the name; no other field changes. |
| Definitions.Definition.SetMemberName | panda/src/shaderpipeline/shaderModuleSpirV.h:134 | Names member `i` as `WithMemberName` says; no other field changes. |
| Definitions.Definition.SetType | panda/src/shaderpipeline/shaderModuleSpirV.h:136 | Marks the id as a type with the given type; names, location, built-in, constant, use flag and storage class are unchanged. |
| Definitions.Definition.SetTypePointer | panda/src/shaderpipeline/shaderModuleSpirV.h:137 | Marks the id as a pointer type with the given storage class and type; the other fields are unchanged. |
| Definitions.Definition.SetVariable | panda/src/shaderpipeline/shaderModuleSpirV.h:138 | Marks the id as a variable together with its type and storage class; the other fields are unchanged. |
| Definitions.Definition.SetConstant | panda/src/shaderpipeline/shaderModuleSpirV.h:139 | Marks the id as a constant of the given type whose value is the first literal word, or 0 when there are no words; the other fields are unchanged. |
| Definitions.Definition.SetExtInst | panda/src/shaderpipeline/shaderModuleSpirV.h:140 | Marks the id as an extended-instruction-set import with the given name; the other fields are unchanged. |
| Definitions.Definition.MarkUsed | panda/src/shaderpipeline/shaderModuleSpirV.h:142 | Sets the use flag and nothing else; on a record already marked it changes nothing at all. |
| ShaderModules.AsInt | panda/src/shaderpipeline/shaderModuleSpirV.h:154 | A literal word read as an `int` key is the two's-complement value: in range of a 32-bit `int` and congruent to the word modulo 2^32. |
| ShaderModules.AsWord | panda/src/shaderpipeline/shaderModuleSpirV.h:154 | An `int` image stored into a literal word is congruent to it modulo 2^32. |
| ShaderModules.AsWordOfAsInt | panda/src/shaderpipeline/shaderModuleSpirV.h:154 | Storing a word's own `int` reading gives the word back. |
| ShaderModules.RemapInst | panda/src/shaderpipeline/shaderModuleSpirV.h:154 | Remapping keeps the opcode, the argument count and every argument but the location operand. The location of a target whose location the map holds becomes the map's image. Every other instruction is left as it is. |
| ShaderModules.RemapInstsShape | panda/src/shaderpipeline/shaderModuleSpirV.h:154 | Remapping keeps the number of instructions and each one's argument count, so whatever fitted the 16-bit word count still fits. |
| ShaderModules.RemapInstsAppend | panda/src/shaderpipeline/shaderModuleSpirV.h:154 | Remapping works instruction by instruction: it distributes over concatenation. |
| ShaderModules.RemappedWords | panda/src/shaderpipeline/shaderModuleSpirV.h:154 | The remapped words are well formed, keep the header and the length, and decode into the remapped instruction list. |
| ShaderModules.RemapIdentity | panda/src/shaderpipeline/shaderModuleSpirV.h:154 | A map that sends every location it holds to itself leaves the words identical. |
| ShaderModules.RemapEmpty | panda/src/shaderpipeline/shaderModuleSpirV.h:154 | The empty map leaves the words identical. |
| ShaderModules.RemapInstWords | panda/src/shaderpipeline/shaderModuleSpirV.h:154 | Remapping one instruction keeps its word count and can change only its fourth word, and only when it is to be remapped. |
| ShaderModules.RemapWordsAt | panda/src/shaderpipeline/shaderModuleSpirV.h:154 | In the remapped words each instruction sits where it sat before, encoded from its remapped form. |
| ShaderModules.RemapChangesOnlyLocations | panda/src/shaderpipeline/shaderModuleSpirV.h:154 | Any word that remapping changes is the literal operand (fourth word) of a Location decoration on a target whose location the map holds. No word count or opcode changes. |
| ShaderModules.PartlyRemapped | panda/src/shaderpipeline/shaderModuleSpirV.h:154 | The words after the loop of `remap_locations` has visited `k` instructions have the original length. |
| ShaderModules.PartlyRemappedParses | panda/src/shaderpipeline/shaderModuleSpirV.h:154 | After `k` steps the words are well formed, keep the header, and decode into the first `k` instructions remapped followed by the rest unchanged. |
| ShaderModules.PartlyRemappedAll | panda/src/shaderpipeline/shaderModuleSpirV.h:154 | After the last step the words are the remapped words. |
| ShaderModules.PartlyRemappedAt | panda/src/shaderpipeline/shaderModuleSpirV.h:154 | The loop reads instruction `k` where it sat in the original words, with its opcode, argument count and operands unchanged. |
| ShaderModules.PartlyRemappedNext | panda/src/shaderpipeline/shaderModuleSpirV.h:154 | One step overwrites the location operand of instruction `k` with the map's image if it is to be remapped, and changes nothing otherwise. |
| ShaderModules.ShaderModuleSpirV.constructor | panda/src/shaderpipeline/shaderModuleSpirV.h:29 | The module's `_instructions` stream holds the given words. |
| ShaderModules.ShaderModuleSpirV.RemapLocations | panda/src/shaderpipeline/shaderModuleSpirV.h:154 | `remap_locations` turns the words into the remapped words for the variables the definitions table records in the given storage class. |
| ShaderModules.ShaderModuleSpirV.RemapAt | panda/src/shaderpipeline/shaderModuleSpirV.h:154 | One turn of the loop takes the words after `k` steps to the words after `k + 1` steps, and leaves the instruction's first word, so `++` still reaches the next instruction. |
| ShaderModules.ShaderModuleSpirV.Strip | panda/src/shaderpipeline/shaderModuleSpirV.h:157 | The module's stream is replaced by a fresh stream holding the stripped words. |

## Left out

- The `.I` and `.cxx` bodies of `ShaderModuleSpirV` are not part of this model. Each operation is modelled from its declaration and the SPIR-V layout, so details that only a body fixes are choices. They are listed below.
- `Instruction.args` is an offset into the words rather than a pointer. Writes through it are modelled as word updates (`SetArgAtStart`, and the write in `RemapAt`).
- Iterator and pointer invalidation after an edit is not modelled: an iterator is a word offset that stays meaningful.
- The default constructor of `InstructionIterator` (a null cursor) is left out, because a null cursor can be neither dereferenced nor advanced.
- `operator !=` has no member of its own: it is the negation of `InstructionIterator.Equals`, which the loops use as `!Equals`.
- `InstructionStreams.InstructionStream.Insert`, `InsertWords`, `Erase` and `EraseArg` leave the iterator argument unchanged and return a new iterator. The declarations take `iterator &it` by non-const reference, so the program may also update `it`; that update is not modelled.
- `InstructionStreams.InstructionStream.ValidateHeader` accepts any five or more words that start with the magic number. The declaration only fixes that a wrong magic number fails; any further check the body makes (version, bound, size) is not modelled.
- A failing validation or parse is reported together with a diagnostic message. Messages are output, and like other I/O they are not modelled.
- `operator std::vector<uint32_t> &` and `get_data`/`get_data_size` expose the words, which are the `words` field here.
- `InstructionStreams.InstructionStream.Insert`: the conversion of the initializer list's length to `uint16_t nargs` is assumed, since the body is not visible.
- `InstructionStreams.InstructionStream.BeginAnnotations`: which opcodes it skips is inferred from the logical layout in section 2.4 of the SPIR-V Specification.
  - It skips capabilities, extensions, imports, memory model, entry points, execution modes and the debug instructions.
  - `OpLine`/`OpNoLine` count as the first non-preamble instruction.
- `InstructionStreams.InstructionStream.Strip`: the removed set is the instructions that the SPIR-V Specification lists under "Debug Instructions". The body is not visible, so anything else `strip` may drop is not modelled; non-semantic extended-instruction-set debug info is one such case.
- `InstructionStreams.InstructionStream.EraseArg` requires `arg < nargs`. The declaration does not say what erasing a missing argument does, and the body is not visible.
- `InstructionStreams.InstructionStream.Erase` and `EraseArg` require the iterator to point at an instruction that lies within the words.
- `ShaderModules.ShaderModuleSpirV.RemapLocations` takes the definitions table as a parameter.
  - The program gets that table by parsing the module (`parse`), and parsing is not part of this model.
  - An id at or beyond the end of the table is not a variable.
  - The location literal is looked up as a two's-complement `int`, and its image is written back modulo 2^32.
- `ShaderModules.ShaderModuleSpirV.Strip` is modelled as replacing `_instructions` by `_instructions.strip()`, since the body is not visible.
- The constructor of `ShaderModuleSpirV` only wraps the words. Whatever else the program's constructor does is not part of this model.
- `Definitions.Definition.SetConstant` takes the first of the `nwords` literal words as the constant's value, or 0 when there are none. The declaration does not say which word it keeps; a wider constant's other words are not modelled.
- `Definitions.Definition.SetExtInst` stores the set's name in the name field. The declaration has no separate field for it.
- `Definitions.Definition.SetTypePointer` stores its storage class in the same field as `SetVariable`. The declaration says that field is only defined for a variable; the model keeps the pointer's storage class there rather than drop the argument.
- `Definitions.Definition.constructor` and `Definitions.Definition.Clear` leave the storage class unset, as the declaration does. Its value is not specified.
- `Definition` holds the `ShaderType` descriptor as an opaque handle. The type system is not part of this model.
- `parse`, `parse_instruction`, `assign_locations`, `flatten_struct`, `link_inputs` and `remap_parameter_locations` are not modelled. They work on the `ShaderType` descriptors, and their bodies are not visible.
- `get_ir`, `make_cow_copy`, the destructor and the type-handle registration are not modelled. They are disassembly and object-model plumbing.
- The `Stage` parameter of the `ShaderModuleSpirV` constructor belongs to the `ShaderModule` base class, which is not part of this model.
- The Maya conversion clients in pandatool are not modelled. They are network I/O.
