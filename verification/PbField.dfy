/** nanopb's field descriptor tables and the values of the structs they describe. */
module PbField {
  import opened DbFormat
  import opened Varint

  /** The largest pb_size_t, for each of the three widths it can be built with. */
  type SizeMax = n: nat | n == 0xFF || n == 0xFFFF || n == 0xFFFF_FFFF witness 0xFF

  const PB_SIZE_MAX: SizeMax
  const POINTER_SIZE: nat
  const MAX_REQUIRED_FIELDS := 64

  /** Where the bytes of a pb_bytes_array_t start: after one pb_size_t. */
  const BYTES_OFFSET: nat := if PB_SIZE_MAX == 0xFF then 1 else if PB_SIZE_MAX == 0xFFFF then 2 else 4

  datatype LType =
    | Bool | VarInt | UVarInt | SVarInt | Fixed32 | Fixed64
    | ByteArray | CString | Submessage | Extension | FixedLengthBytes
  {
    /** Up to PB_LTYPE_LAST_PACKABLE. */
    predicate Packable() { Bool? || VarInt? || UVarInt? || SVarInt? || Fixed32? || Fixed64? }
  }

  datatype HType = Required | Optional | Repeated | Oneof

  datatype AType = Static | Pointer | Callback

  /** A descriptor's pointer: nothing, a submessage's table, or a default value. */
  datatype Ptr = Null | SubFields(fields: seq<Field>) | Default(value: Value)

  datatype Field = Field(tag: Uint32, ltype: LType, htype: HType, atype: AType,
                         dataOffset: nat, sizeOffset: int, dataSize: nat, arraySize: nat, ptr: Ptr)
  {
    /** A repeated field without a count member: all entries are always there. */
    predicate FixedCount() { htype.Repeated? && sizeOffset == 0 }
  }

  /** PB_LAST_FIELD. */
  const TERMINATOR := Field(0, Bool, Required, Static, 0, 0, 0, 0, Null)

  function At(fields: seq<Field>, i: nat): Field {
    if i < |fields| then fields[i] else TERMINATOR
  }

  // ---------- Struct contents ----------

  /** One datum: a number, a byte string (the text of a C string up to its NUL),
      a nested struct, or memory nothing has been stored in. */
  datatype Value = Num(n: int) | Data(bytes: Slice) | Msg(slots: seq<Slot>) | Unset

  /** The storage of one field.  Members of a union share the slot of its first
      member; the others have none.  Where a field has no has-flag, `has` is true. */
  datatype Slot = Single(has: bool, value: Value) | Array(items: seq<Value>) | Union(which: nat, value: Value) | NoSlot

  /** A later member of the same union as its predecessor. */
  predicate SharesUnion(fields: seq<Field>, i: nat) {
    && 0 < i < |fields|
    && fields[i - 1].htype.Oneof? && fields[i].htype.Oneof?
    && fields[i].dataOffset == PB_SIZE_MAX
  }

  /** The field whose slot field i uses. */
  function Home(fields: seq<Field>, i: nat): (h: nat)
    ensures h <= i
  {
    if SharesUnion(fields, i) then Home(fields, i - 1) else i
  }

  /** Of two fields that use one slot, both are members of one union. */
  lemma {:induction false} SharedHome(fields: seq<Field>, i: nat, j: nat)
    requires i < j < |fields| && Home(fields, i) == Home(fields, j)
    ensures fields[i].htype.Oneof? && fields[j].htype.Oneof?
  {
    if i < j - 1 {
      SharedHome(fields, i, j - 1);
    }
  }

  // ---------- Tables ----------

  predicate DistinctTags(fields: seq<Field>) {
    forall i, j :: 0 <= i < j < |fields| ==> fields[i].tag != fields[j].tag
  }

  /** Tables as the generator writes them, for statically allocated fields.  An
      extension placeholder stands for an empty list of extensions. */
  predicate WellFormed(fields: seq<Field>) {
    && DistinctTags(fields)
    && forall i :: 0 <= i < |fields| ==> WellFormedField(fields[i])
  }

  predicate WellFormedField(f: Field) {
    && 1 <= f.tag < 0x2000_0000 && f.dataSize <= PB_SIZE_MAX
    && (if f.ltype.Extension? then f.htype.Optional? else f.atype.Static?)
    && (f.htype.Oneof? ==> f.sizeOffset != 0)
    && (f.ltype.Submessage? ==> f.ptr.SubFields? && WellFormed(f.ptr.fields))
  }

  // ---------- Required fields ----------

  /** How many required fields come before position i. */
  function RequiredBefore(fields: seq<Field>, i: nat): (n: nat)
    requires i <= |fields|
    ensures n <= i
  {
    if i == 0 then 0 else RequiredBefore(fields, i - 1) + if fields[i - 1].htype.Required? then 1 else 0
  }

  lemma {:induction false} RequiredBeforeGrows(fields: seq<Field>, i: nat, j: nat)
    requires i <= j <= |fields|
    ensures RequiredBefore(fields, i) <= RequiredBefore(fields, j)
    ensures i < j && fields[i].htype.Required? ==> RequiredBefore(fields, i) < RequiredBefore(fields, j)
    decreases j
  {
    if i < j {
      RequiredBeforeGrows(fields, i, j - 1);
    }
  }
}
