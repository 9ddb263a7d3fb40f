/**
 * The per-id record that parsing a module fills in
 * (`ShaderModuleSpirV::Definition`): what kind of thing an id denotes, and
 * the names, location, built-in, constant value and use flag attached to it.
 *
 * Only the declaration of the struct is available: the defaults below are
 * its member initializers, and what each setter does follows from its name
 * and parameters.  The semantic type (`const ShaderType *`) belongs to a
 * type system that is not part of this model and is an opaque handle here.
 */
module Definitions {
  import opened SpirV

  datatype DefinitionType = DtNone | DtType | DtTypePointer | DtVariable | DtConstant | DtExtInst

  /** An opaque handle standing for a `ShaderType` descriptor. */
  datatype ShaderType = ShaderType(handle: nat)

  /** `spv::BuiltInMax`: the built-in value of an id that is not a built-in. */
  const BUILT_IN_MAX: Word := 0x7FFF_FFFF

  /** The location of a variable that has none. */
  const NO_LOCATION: int := -1

  /** `member_names` after `set_member_name(i, name)`: grown with empty names to hold index `i`. */
  function WithMemberName(names: seq<string>, i: nat, name: string): (r: seq<string>)
    ensures |r| == if i < |names| then |names| else i + 1
    ensures r[i] == name
    ensures forall j :: 0 <= j < |names| && j != i ==> r[j] == names[j]
    ensures forall j :: |names| <= j < |r| && j != i ==> r[j] == ""
  {
    var grown := if i < |names| then names else names + seq(i + 1 - |names|, _ => "");
    grown[i := name]
  }

  class Definition {
    var dtype: DefinitionType
    var name: string
    /** `nullptr` is `None`. */
    var typ: Option<ShaderType>
    var location: int
    var builtin: Word
    var constant: Word
    var memberNames: seq<string>
    var used: bool
    /**
     * Declared as defined only for a variable.  `set_type_pointer` takes a
     * storage class too; this model stores it there as well.
     */
    var storageClass: Word

    /** Every field but the storage class holds its default. */
    ghost predicate IsCleared()
      reads this
    {
      && dtype == DtNone && name == "" && typ == None && location == NO_LOCATION
      && builtin == BUILT_IN_MAX && constant == 0 && memberNames == [] && !used
    }

    constructor ()
      ensures IsCleared()
    {
      dtype := DtNone;
      name := "";
      typ := None;
      location := NO_LOCATION;
      builtin := BUILT_IN_MAX;
      constant := 0;
      memberNames := [];
      used := false;
    }

    /** Returns every field but the storage class to its default. */
    method Clear()
      modifies this
      ensures IsCleared()
      ensures storageClass == old(storageClass)
    {
      dtype := DtNone;
      name := "";
      typ := None;
      location := NO_LOCATION;
      builtin := BUILT_IN_MAX;
      constant := 0;
      memberNames := [];
      used := false;
    }

    method SetName(name: string)
      modifies this
      ensures this.name == name
      ensures dtype == old(dtype) && typ == old(typ) && location == old(location) && builtin == old(builtin)
      ensures constant == old(constant) && memberNames == old(memberNames) && used == old(used)
      ensures storageClass == old(storageClass)
    {
      this.name := name;
    }

    /** Names member `i`, growing the list of member names with empty names as needed. */
    method SetMemberName(i: Word, name: string)
      modifies this
      ensures memberNames == WithMemberName(old(memberNames), i, name)
      ensures dtype == old(dtype) && this.name == old(this.name) && typ == old(typ) && location == old(location)
      ensures builtin == old(builtin) && constant == old(constant) && used == old(used)
      ensures storageClass == old(storageClass)
    {
      if i >= |memberNames| {
        memberNames := memberNames + seq(i + 1 - |memberNames|, _ => "");
      }
      memberNames := memberNames[i := name];
    }

    /** Marks the id as a type. */
    method SetType(typ: Option<ShaderType>)
      modifies this
      ensures dtype == DtType && this.typ == typ
      ensures name == old(name) && location == old(location) && builtin == old(builtin)
      ensures constant == old(constant) && memberNames == old(memberNames) && used == old(used)
      ensures storageClass == old(storageClass)
    {
      dtype := DtType;
      this.typ := typ;
    }

    /** Marks the id as a pointer type into the given storage class. */
    method SetTypePointer(storageClass: Word, typ: Option<ShaderType>)
      modifies this
      ensures dtype == DtTypePointer && this.typ == typ && this.storageClass == storageClass
      ensures name == old(name) && location == old(location) && builtin == old(builtin)
      ensures constant == old(constant) && memberNames == old(memberNames) && used == old(used)
    {
      dtype := DtTypePointer;
      this.typ := typ;
      this.storageClass := storageClass;
    }

    /** Marks the id as a variable of the given type in the given storage class. */
    method SetVariable(typ: Option<ShaderType>, storageClass: Word)
      modifies this
      ensures dtype == DtVariable && this.typ == typ && this.storageClass == storageClass
      ensures name == old(name) && location == old(location) && builtin == old(builtin)
      ensures constant == old(constant) && memberNames == old(memberNames) && used == old(used)
    {
      dtype := DtVariable;
      this.typ := typ;
      this.storageClass := storageClass;
    }

    /** Marks the id as a constant; its value is the first literal word, or 0 when there is none. */
    method SetConstant(typ: Option<ShaderType>, words: seq<Word>, nwords: Word)
      requires nwords <= |words|
      modifies this
      ensures dtype == DtConstant && this.typ == typ
      ensures constant == if nwords > 0 then words[0] else 0
      ensures name == old(name) && location == old(location) && builtin == old(builtin)
      ensures memberNames == old(memberNames) && used == old(used)
      ensures storageClass == old(storageClass)
    {
      dtype := DtConstant;
      this.typ := typ;
      if nwords > 0 {
        constant := words[0];
      } else {
        constant := 0;
      }
    }

    /** Marks the id as an import of the named extended instruction set. */
    method SetExtInst(name: string)
      modifies this
      ensures dtype == DtExtInst && this.name == name
      ensures typ == old(typ) && location == old(location) && builtin == old(builtin)
      ensures constant == old(constant) && memberNames == old(memberNames) && used == old(used)
      ensures storageClass == old(storageClass)
    {
      dtype := DtExtInst;
      this.name := name;
    }

    /** Sets the use flag; on a definition already marked it changes nothing. */
    method MarkUsed()
      modifies this
      ensures used
      ensures dtype == old(dtype) && name == old(name) && typ == old(typ) && location == old(location)
      ensures builtin == old(builtin) && constant == old(constant) && memberNames == old(memberNames)
      ensures storageClass == old(storageClass)
      ensures old(used) ==> unchanged(this)
    {
      used := true;
    }
  }
}
