/**
 Structs described at run time: the type descriptions the generator emits, the bytes of a struct in memory, and the
 value those bytes stand for.
 */
module StructTypes {
  import opened Bytes
  import opened JsonMeaning
  import opened JsonPrint

  const NEST_DEPTH_MAX := 8
  const MAX_FIELDS := 64
  const MAX_TYPES := 4096

  /** What a field that is not a struct holds. */
  datatype Leaf = Null | Integer(i: int) | Boolean(b: bool) | Text(t: bytes)

  datatype FieldKind = FIELD_INT | FIELD_LONG | FIELD_BOOL | FIELD_STR | FIELD_OBJECT(nested: TypeInfo)

  /** The rules of a field ($min, $size, $email and so on) are any condition on the value it holds. */
  datatype Field = Field(name: bytes, kind: FieldKind, offset: nat, size: nat, notNull: bool, nullable: bool,
                         rules: Leaf -> bool)

  datatype TypeInfo = TypeInfo(name: bytes, size: nat, fields: seq<Field>)

  // ----- sizes -----

  function Width(kind: FieldKind): nat {
    match kind case FIELD_INT => 4 case FIELD_LONG => 8 case FIELD_BOOL => 1 case FIELD_STR => 8 case FIELD_OBJECT(_) => 0
  }

  /** Where the value of a Nullable_T starts; its first byte is has_value. */
  function ValueOffset(kind: FieldKind): nat {
    match kind case FIELD_INT => 4 case FIELD_LONG => 8 case FIELD_BOOL => 1 case FIELD_STR => 0 case FIELD_OBJECT(_) => 0
  }

  /** field_storage_size, and the size of the struct for a nested one; 0 when the field cannot be stored. */
  function StorageSize(f: Field): nat {
    if f.kind.FIELD_OBJECT? then f.kind.nested.size
    else if !f.nullable then Width(f.kind)
    else if f.kind.FIELD_STR? then 0
    else ValueOffset(f.kind) + Width(f.kind)
  }

  function ScalarOffset(f: Field): nat { f.offset + if f.nullable then ValueOffset(f.kind) else 0 }

  // ----- type_valid -----

  predicate IsSafeIdentifier(name: bytes) { |name| < MAX_TEXT && IsIdentifier(name) }

  predicate FieldFits(t: TypeInfo, f: Field) {
    IsSafeIdentifier(f.name) && StorageSize(f) > 0 && f.size == StorageSize(f) && f.offset + f.size <= t.size
  }

  /** type_valid_nested: what is left of the budget of types, or None. */
  function TypeValidNested(t: TypeInfo, depth: nat, remaining: nat): Option<nat>
    decreases t, |t.fields| + 1
  {
    if depth >= NEST_DEPTH_MAX || remaining == 0 then None
    else if !IsSafeIdentifier(t.name) || |t.fields| == 0 || |t.fields| > MAX_FIELDS || t.size == 0 then None
    else FieldsValid(t, 0, depth, remaining - 1)
  }

  function FieldsValid(t: TypeInfo, i: nat, depth: nat, remaining: nat): Option<nat>
    decreases t, |t.fields| - i
  {
    if i >= |t.fields| then Some(remaining)
    else
      var f := t.fields[i];
      var left := if f.kind.FIELD_OBJECT? then TypeValidNested(f.kind.nested, depth + 1, remaining) else Some(remaining);
      if left.None? || !FieldFits(t, f) then None else FieldsValid(t, i + 1, depth, left.value)
  }

  predicate TypeValid(t: TypeInfo) { TypeValidNested(t, 0, MAX_TYPES).Some? }

  /** Every field has a usable name, the size its kind calls for, and lies inside its struct, at every level. */
  predicate Shape(t: TypeInfo) {
    && IsSafeIdentifier(t.name) && 0 < |t.fields| <= MAX_FIELDS && t.size > 0
    && forall i :: 0 <= i < |t.fields| ==>
         FieldFits(t, t.fields[i]) && (t.fields[i].kind.FIELD_OBJECT? ==> Shape(t.fields[i].kind.nested))
  }

  /** At most `levels` structs stand one inside the other. */
  predicate Fits(t: TypeInfo, levels: nat) {
    levels > 0 && forall i :: 0 <= i < |t.fields| && t.fields[i].kind.FIELD_OBJECT? ==>
                     Fits(t.fields[i].kind.nested, levels - 1)
  }

  /** The number of structs from field i on, counting a type once for every place it is used. */
  function Nodes(t: TypeInfo): nat
    decreases t, |t.fields| + 1
  {
    1 + NodesFrom(t, 0)
  }

  function NodesFrom(t: TypeInfo, i: nat): nat
    decreases t, |t.fields| - i
  {
    if i >= |t.fields| then 0
    else (if t.fields[i].kind.FIELD_OBJECT? then Nodes(t.fields[i].kind.nested) else 0) + NodesFrom(t, i + 1)
  }

  ghost predicate FieldsShape(t: TypeInfo, i: nat, levels: int) {
    forall k :: i <= k < |t.fields| ==>
      && FieldFits(t, t.fields[k])
      && (t.fields[k].kind.FIELD_OBJECT? ==>
            levels > 0 && Shape(t.fields[k].kind.nested) && Fits(t.fields[k].kind.nested, levels))
  }

  /** type_valid accepts exactly the well-shaped types of at most 8 levels and 4096 structs. */
  lemma {:induction false} TypeValidIs(t: TypeInfo, depth: nat, remaining: nat)
    requires depth <= NEST_DEPTH_MAX
    ensures TypeValidNested(t, depth, remaining) ==
            if Shape(t) && Fits(t, NEST_DEPTH_MAX - depth) && Nodes(t) <= remaining then Some(remaining - Nodes(t)) else None
    decreases t, |t.fields| + 1
  {
    hide IsSafeIdentifier, FieldFits;
    if depth < NEST_DEPTH_MAX && remaining > 0 {
      FieldsValidIs(t, 0, depth, remaining - 1);
    }
  }

  lemma {:induction false} FieldsValidIs(t: TypeInfo, i: nat, depth: nat, remaining: nat)
    requires depth < NEST_DEPTH_MAX && i <= |t.fields|
    ensures FieldsValid(t, i, depth, remaining) ==
            if FieldsShape(t, i, NEST_DEPTH_MAX - depth - 1) && NodesFrom(t, i) <= remaining
            then Some(remaining - NodesFrom(t, i)) else None
    decreases t, |t.fields| - i
  {
    hide IsSafeIdentifier, FieldFits, Shape, Fits;
    if i < |t.fields| {
      var f := t.fields[i];
      var left := remaining;
      if f.kind.FIELD_OBJECT? {
        TypeValidIs(f.kind.nested, depth + 1, remaining);
        NeedsLevel(f.kind.nested);
        if TypeValidNested(f.kind.nested, depth + 1, remaining).Some? {
          left := remaining - Nodes(f.kind.nested);
          FieldsValidIs(t, i + 1, depth, left);
        }
      } else {
        FieldsValidIs(t, i + 1, depth, left);
      }
      FieldsShapeStep(t, i, NEST_DEPTH_MAX - depth - 1);
    }
  }

  lemma NeedsLevel(t: TypeInfo)
    ensures !Fits(t, 0)
  {
  }

  lemma FieldsShapeStep(t: TypeInfo, i: nat, levels: nat)
    requires i < |t.fields|
    ensures FieldsShape(t, i, levels) <==>
            && FieldsShape(t, i + 1, levels) && FieldFits(t, t.fields[i])
            && (t.fields[i].kind.FIELD_OBJECT? ==>
                  levels > 0 && Shape(t.fields[i].kind.nested) && Fits(t.fields[i].kind.nested, levels))
  {
    hide IsSafeIdentifier, FieldFits, Shape, Fits;
  }

  // ----- integers in memory -----

  function LittleEndian(n: nat, k: nat): (s: bytes)
    ensures |s| == k
  {
    if k == 0 then [] else [n % 256] + LittleEndian(n / 256, k - 1)
  }

  function FromLittleEndian(s: bytes): nat { if s == [] then 0 else s[0] + 256 * FromLittleEndian(s[1..]) }

  function Pow256(k: nat): (p: nat)
    ensures p > 0
  {
    if k == 0 then 1 else 256 * Pow256(k - 1)
  }

  lemma {:induction false} LittleEndianBack(n: nat, k: nat)
    requires n < Pow256(k)
    ensures FromLittleEndian(LittleEndian(n, k)) == n
    decreases k
  {
    if k > 0 {
      LittleEndianBack(n / 256, k - 1);
      assert LittleEndian(n, k)[1..] == LittleEndian(n / 256, k - 1);
    }
  }

  const INT_LIMIT := 0x8000_0000
  const LONG_LIMIT := 0x8000_0000_0000_0000

  lemma Limits()
    ensures Pow256(4) == 2 * INT_LIMIT && Pow256(8) == 2 * LONG_LIMIT
  {
    assert Pow256(4) == 0x1_0000_0000;
    assert Pow256(6) == 0x1_0000_0000_0000;
  }

  /** Two's complement. */
  function Signed(n: nat, limit: nat): int { if n >= limit then n - 2 * limit else n }
  function Unsigned(v: int, limit: nat): (n: nat)
    requires -(limit as int) <= v < limit
    ensures n < 2 * limit && Signed(n, limit) == v
  {
    if v < 0 then v + 2 * limit else v
  }

  // ----- the value of a struct -----

  /** The text a C string function sees at an address. */
  type Ram = nat -> bytes

  /** The JSON buffer at address `base`, and whatever is elsewhere. */
  function WithBuffer(base: nat, js: bytes, elsewhere: Ram): Ram {
    (p: nat) => if base <= p < base + |js| then CString(js[p - base..]) else elsewhere(p)
  }

  /** read_int, read_long, read_bool and read_str. */
  function ScalarAt(kind: FieldKind, mem: bytes, at: nat, ram: Ram): Leaf
    requires !kind.FIELD_OBJECT? && at + Width(kind) <= |mem|
  {
    match kind
    case FIELD_INT => Integer(Signed(FromLittleEndian(mem[at..at + 4]), INT_LIMIT))
    case FIELD_LONG => Integer(Signed(FromLittleEndian(mem[at..at + 8]), LONG_LIMIT))
    case FIELD_BOOL => Boolean(mem[at] != 0)
    case FIELD_STR => var p := FromLittleEndian(mem[at..at + 8]); if p == 0 then Null else Text(ram(p))
  }

  /** What field f of the struct at `off` holds. */
  function LeafOf(f: Field, mem: bytes, off: nat, ram: Ram): Leaf
    requires !f.kind.FIELD_OBJECT? && f.size == StorageSize(f) > 0 && off + f.offset + f.size <= |mem|
  {
    if f.nullable && mem[off + f.offset] == 0 then Null else ScalarAt(f.kind, mem, off + ScalarOffset(f), ram)
  }

  /** Four bytes of memory, the least first. */
  function Four(mem: bytes, at: nat): nat
    requires at + 4 <= |mem|
  {
    mem[at] as int + 0x100 * (mem[at + 1] as int) + 0x1_0000 * (mem[at + 2] as int) + 0x100_0000 * (mem[at + 3] as int)
  }

  /** Integers are four or eight bytes in two's complement; any byte but 0 is true. */
  lemma MemoryIs(mem: bytes, at: nat, ram: Ram)
    ensures at + 4 <= |mem| ==>
              ScalarAt(FIELD_INT, mem, at, ram)
              == Integer(Four(mem, at) - if mem[at + 3] >= 0x80 then 0x1_0000_0000 else 0)
    ensures at + 8 <= |mem| ==>
              ScalarAt(FIELD_LONG, mem, at, ram)
              == Integer(Four(mem, at) + 0x1_0000_0000 * Four(mem, at + 4)
                         - if mem[at + 7] >= 0x80 then 0x1_0000_0000_0000_0000 else 0)
    ensures at + 1 <= |mem| ==> (ScalarAt(FIELD_BOOL, mem, at, ram) == Boolean(false) <==> mem[at] == 0)
  {
    hide FromLittleEndian;
    if at + 4 <= |mem| { FourBytes(mem[at..at + 4]); }
    if at + 8 <= |mem| {
      var s := mem[at..at + 8];
      FourBytes(s[..4]);
      FourBytes(s[4..]);
      EightBytes(s);
    }
  }

  /** The first four bytes, and the rest. */
  lemma FirstFour(s: bytes)
    requires |s| >= 4
    ensures FromLittleEndian(s) == Four(s, 0) + 0x1_0000_0000 * FromLittleEndian(s[4..])
  {
    hide FromLittleEndian;
    var a, b, c := s[1..], s[2..], s[3..];
    assert a[1..] == b && b[1..] == c && c[1..] == s[4..];
    FirstByte(s);
    FirstByte(a);
    FirstByte(b);
    FirstByte(c);
  }

  lemma FirstByte(s: bytes)
    requires s != []
    ensures FromLittleEndian(s) == s[0] as int + 256 * FromLittleEndian(s[1..])
  {
  }

  lemma FourBytes(s: bytes)
    requires |s| == 4
    ensures FromLittleEndian(s) == Four(s, 0)
  {
    FirstFour(s);
    assert s[4..] == [];
  }

  lemma EightBytes(s: bytes)
    requires |s| == 8
    ensures FromLittleEndian(s) == FromLittleEndian(s[..4]) + 0x1_0000_0000 * FromLittleEndian(s[4..])
  {
    hide FromLittleEndian;
    FirstFour(s);
    FourBytes(s[..4]);
  }

  datatype Val = Scalar(leaf: Leaf) | Struct(vals: seq<Val>)

  /** The value of the struct of type t at `off`. */
  function ValueOf(t: TypeInfo, mem: bytes, off: nat, ram: Ram): (v: Val)
    requires Shape(t) && off + t.size <= |mem|
    ensures v.Struct? && |v.vals| == |t.fields|
    decreases t, 1
  {
    Struct(seq(|t.fields|, i requires 0 <= i < |t.fields| => FieldValue(t, i, mem, off, ram)))
  }

  function FieldValue(t: TypeInfo, i: nat, mem: bytes, off: nat, ram: Ram): Val
    requires Shape(t) && off + t.size <= |mem| && i < |t.fields|
    decreases t, 0
  {
    var f := t.fields[i];
    assert FieldFits(t, f);
    if f.kind.FIELD_OBJECT? then ValueOf(f.kind.nested, mem, off + f.offset, ram) else Scalar(LeafOf(f, mem, off, ram))
  }

  // ----- field_validate and validate_struct -----

  predicate LeafValid(f: Field, l: Leaf) { if l.Null? then !f.notNull else f.rules(l) }

  const PATH_SIZE := NEST_DEPTH_MAX * 65

  function PathTo(prefix: bytes, name: bytes): bytes { prefix + (if prefix == [] then [] else [0x2E]) + name }

  /** validate_nested, of a value. */
  predicate Validates(t: TypeInfo, v: Val, depth: nat, prefix: bytes) {
    && depth < NEST_DEPTH_MAX && v.Struct? && |v.vals| == |t.fields|
    && forall i :: 0 <= i < |t.fields| ==>
         var f := t.fields[i];
         && |PathTo(prefix, f.name)| < PATH_SIZE
         && if f.kind.FIELD_OBJECT? then Validates(f.kind.nested, v.vals[i], depth + 1, PathTo(prefix, f.name))
            else v.vals[i].Scalar? && LeafValid(f, v.vals[i].leaf)
  }
}
