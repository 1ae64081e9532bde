/** Structs: bags of named fields, the comparison defined on them, and disk ops as such bags. */
module Structs {
  import opened FileSystem
  import opened DiskOps

  datatype Value =
    | NoValue
    | Number(n: int)
    | Flag(b: bool)
    | Text(s: string)
    | Names(path: Path)
    | Nested(fields: map<string, Value>)

  type Struct = map<string, Value>

  /** superficial_eq: fields that are structs themselves are passed over. */
  predicate SuperficialEq(a: Struct, b: Struct) {
    forall k :: k in a && !a[k].Nested? ==> k in b && a[k] == b[k]
  }

  /** `a == b`.  Only the fields of `a` are looked at: `b` may have more. */
  predicate Eq(a: Struct, b: Struct) {
    forall k :: k in a ==>
      && k in b
      && if a[k].Nested? then b[k].Nested? && SuperficialEq(a[k].fields, b[k].fields) else a[k] == b[k]
  }

  function GetNat(s: Struct, k: string): Option<nat> {
    if k in s && s[k].Number? && s[k].n >= 0 then Some(s[k].n) else None
  }

  function GetText(s: Struct, k: string): Option<string> {
    if k in s && s[k].Text? then Some(s[k].s) else None
  }

  function GetNames(s: Struct, k: string): Option<Path> {
    if k in s && s[k].Names? then Some(s[k].path) else None
  }

  function DecodeEntry(s: Struct, create: bool): Option<DiskOp> {
    match (GetNat(s, "parent"), GetNames(s, "entry"), GetNat(s, "inode"), GetNat(s, "entry_type"))
    case (Some(parent), Some(entry), Some(inode), Some(kind)) =>
      if create then Some(CreateDirEntry(parent, entry, inode, kind == 0))
      else Some(DeleteDirEntry(parent, entry, inode, kind == 0))
    case _ => None
  }

  function DecodePayload(s: Struct): Option<Payload> {
    if "special_write" !in s then None
    else if s["special_write"] == Text("ZEROS") then Some(Zeros)
    else if s["special_write"] == Text("GARBAGE") then Some(Random)
    else if s["special_write"] != NoValue then None
    else
      match (GetText(s, "dump_file"), GetNat(s, "dump_offset"))
      case (Some(file), Some(offset)) => Some(Dump(file, offset))
      case _ => None
  }

  function DecodeWrite(s: Struct): Option<DiskOp> {
    match (GetNat(s, "inode"), GetNat(s, "offset"), GetNat(s, "count"), DecodePayload(s))
    case (Some(inode), Some(offset), Some(count), Some(payload)) => Some(Write(inode, offset, count, payload))
    case _ => None
  }

  /** The fields of a row that the replay loop reads. */
  function Decode(s: Struct): Option<DiskOp> {
    match GetText(s, "op")
    case None => None
    case Some(op) =>
      if op == "create_dir_entry" then DecodeEntry(s, true)
      else if op == "delete_dir_entry" then DecodeEntry(s, false)
      else if op == "truncate" then
        (match (GetNat(s, "inode"), GetNat(s, "initial_size"), GetNat(s, "final_size"))
         case (Some(inode), Some(initial), Some(final)) => Some(Truncate(inode, initial, final))
         case _ => None)
      else if op == "write" then DecodeWrite(s)
      else if op == "sync" then
        (match (GetNat(s, "inode"), GetNat(s, "offset"), GetNat(s, "count"))
         case (Some(inode), Some(offset), Some(count)) => Some(Sync(inode, offset, count))
         case _ => None)
      else if op == "stdout" || op == "stderr" then
        (match GetText(s, "data")
         case Some(data) => Some(Output(op == "stderr", data))
         case _ => None)
      else None
  }

  /** The fields that say what a disk op is, as get_disk_ops writes them. */
  function Fields(op: DiskOp): Struct {
    match op
    case CreateDirEntry(parent, entry, inode, isDir) =>
      map["op" := Text("create_dir_entry"), "parent" := Number(parent), "entry" := Names(entry),
          "inode" := Number(inode), "entry_type" := Number(if isDir then 0 else 1), "mode" := NoValue]
    case DeleteDirEntry(parent, entry, inode, isDir) =>
      map["op" := Text("delete_dir_entry"), "parent" := Number(parent), "entry" := Names(entry),
          "inode" := Number(inode), "entry_type" := Number(if isDir then 0 else 1)]
    case Truncate(inode, initialSize, finalSize) =>
      map["op" := Text("truncate"), "inode" := Number(inode), "initial_size" := Number(initialSize),
          "final_size" := Number(finalSize)]
    case Write(inode, offset, count, payload) =>
      map["op" := Text("write"), "inode" := Number(inode), "offset" := Number(offset), "count" := Number(count),
          "special_write" := (match payload case Zeros => Text("ZEROS") case Random => Text("GARBAGE") case Dump(_, _) => NoValue),
          "dump_file" := (if payload.Dump? then Text(payload.file) else NoValue),
          "dump_offset" := Number(if payload.Dump? then payload.offset else 0)]
    case Sync(inode, offset, count) =>
      map["op" := Text("sync"), "inode" := Number(inode), "offset" := Number(offset), "count" := Number(count)]
    case Output(isError, data) =>
      map["op" := Text(if isError then "stderr" else "stdout"), "data" := Text(data)]
  }

  /** A row: a disk op with its tags. */
  function Encode(op: DiskOp, tags: Struct): Struct {
    tags + Fields(op)
  }

  lemma DecodeEncode(op: DiskOp, tags: Struct)
    ensures Decode(Encode(op, tags)) == Some(op)
  {
    if op.Write? {
      DecodeEncodeWrite(op, tags);
    } else if op.CreateDirEntry? || op.DeleteDirEntry? {
      DecodeEncodeEntry(op, tags);
    } else {
      DecodeEncodeOther(op, tags);
    }
  }

  lemma DecodeEncodeWrite(op: DiskOp, tags: Struct)
    requires op.Write?
    ensures Decode(Encode(op, tags)) == Some(op)
  {
    var s := Encode(op, tags);
    assert GetText(s, "op") == Some("write");
    assert DecodePayload(s) == Some(op.payload);
    assert DecodeWrite(s) == Some(op);
  }

  lemma DecodeEncodeOther(op: DiskOp, tags: Struct)
    requires op.Truncate? || op.Sync? || op.Output?
    ensures Decode(Encode(op, tags)) == Some(op)
  {
  }

  lemma DecodeEncodeEntry(op: DiskOp, tags: Struct)
    requires op.CreateDirEntry? || op.DeleteDirEntry?
    ensures Decode(Encode(op, tags)) == Some(op)
  {
  }

  // The names and numbers that tell rows apart: entry type 0 is a directory, and zeros and garbage are special
  // writes.
  lemma KnownFields(op: DiskOp, tags: Struct)
    ensures var s := Encode(op, tags);
            match op
            case CreateDirEntry(_, _, _, isDir) =>
              GetText(s, "op") == Some("create_dir_entry") && GetNat(s, "entry_type") == Some(if isDir then 0 else 1)
            case DeleteDirEntry(_, _, _, isDir) =>
              GetText(s, "op") == Some("delete_dir_entry") && GetNat(s, "entry_type") == Some(if isDir then 0 else 1)
            case Truncate(_, _, _) => GetText(s, "op") == Some("truncate")
            case Write(_, _, _, payload) =>
              GetText(s, "op") == Some("write")
              && GetText(s, "special_write") == if payload.Zeros? then Some("ZEROS") else if payload.Random? then Some("GARBAGE") else None
            case Sync(_, _, _) => GetText(s, "op") == Some("sync")
            case Output(isError, _) => GetText(s, "op") == Some(if isError then "stderr" else "stdout")
  {
  }

  lemma EqReflexive(a: Struct)
    ensures Eq(a, a)
  {
  }

  // Comparing equal is having the same effect: what the replay loop reads of the first row, it reads
  // of the second one.
  lemma EqSameEffect(a: Struct, b: Struct)
    requires Eq(a, b) && Decode(a).Some?
    ensures Decode(b) == Decode(a)
  {
    hide Eq;
    EqFields(a, b);
  }

  lemma EqFields(a: Struct, b: Struct)
    requires Eq(a, b)
    ensures forall k :: k in a && !a[k].Nested? ==> k in b && b[k] == a[k]
  {
  }

  // What the comparison does not look at: further fields of the right side, and structs inside the structs
  // of either side.
  lemma EqIgnores(a: Struct, more: Struct, k: string, inner: Struct, innerMore: Struct)
    requires more.Keys !! a.Keys
    requires k in a && a[k].Nested? && inner == a[k].fields
    requires forall f :: f in inner && !inner[f].Nested? ==> f in innerMore && innerMore[f] == inner[f]
    ensures Eq(a, a[k := Nested(innerMore)] + more)
  {
  }

  // The comparison looks at the fields of its left side only.  It holds the other way round as well exactly
  // when the right side has no further field, neither itself nor in the structs directly inside it.
  lemma EqSymmetricIff(a: Struct, b: Struct)
    requires Eq(a, b)
    ensures Eq(b, a) <==>
            && b.Keys == a.Keys
            && forall k, f :: k in a && a[k].Nested? && f in b[k].fields && !b[k].fields[f].Nested?
                              ==> f in a[k].fields && !a[k].fields[f].Nested?
  {
    if Eq(b, a) {
      forall k ensures k in a <==> k in b {
      }
    }
  }

  /** The bookkeeping that get_disk_ops adds to a row.  The data of an append is the one write that is made
      without a field for bytes given directly. */
  function Tags(op: DiskOp, micro: Struct, id: int, omitted: bool): Struct {
    map["hidden_micro_op" := Nested(micro), "hidden_id" := Number(id), "hidden_omitted" := Flag(omitted)]
    + (if op.Write? && !(op.payload.Dump? && GetText(micro, "op") == Some("append")) then map["override_data" := NoValue] else map[])
  }

  function CompiledRow(op: DiskOp, micro: Struct, id: int, omitted: bool): Struct {
    Encode(op, Tags(op, micro, id, omitted))
  }

  /** Micro ops of one kind have the same plain fields. */
  ghost predicate Alike(a: Struct, b: Struct) {
    && GetText(a, "op").Some? && GetText(b, "op").Some?
    && (a["op"] == b["op"] ==> forall k :: (k in a && !a[k].Nested?) <==> (k in b && !b[k].Nested?))
  }

  // On rows that the compiler builds, of micro ops with the same fields, the comparison is symmetric:
  // equal rows are of one kind and belong to micro ops of one kind, so neither has a further field.
  lemma CompiledRowsSymmetric(op: DiskOp, micro: Struct, id: int, omitted: bool, op': DiskOp, micro': Struct, id': int, omitted': bool)
    requires Alike(micro, micro')
    requires Eq(CompiledRow(op, micro, id, omitted), CompiledRow(op', micro', id', omitted'))
    ensures Eq(CompiledRow(op', micro', id', omitted'), CompiledRow(op, micro, id, omitted))
  {
    hide Eq, Decode, CompiledRow;
    var a, b := CompiledRow(op, micro, id, omitted), CompiledRow(op', micro', id', omitted');
    RowDecodes(op, micro, id, omitted);
    RowDecodes(op', micro', id', omitted');
    EqSameEffect(a, b);
    OnlyMicroIsNested(op, micro, id, omitted);
    OnlyMicroIsNested(op', micro', id', omitted');
    SameMicroOp(a, b, micro, micro');
    SameKeys(op, micro, id, omitted, micro', id', omitted');
    EqSymmetricIff(a, b);
  }

  lemma RowDecodes(op: DiskOp, micro: Struct, id: int, omitted: bool)
    ensures Decode(CompiledRow(op, micro, id, omitted)) == Some(op)
  {
    DecodeEncode(op, Tags(op, micro, id, omitted));
  }

  lemma SameMicroOp(a: Struct, b: Struct, micro: Struct, micro': Struct)
    requires Eq(a, b) && "hidden_micro_op" in a && a["hidden_micro_op"] == Nested(micro)
    requires "hidden_micro_op" in b && b["hidden_micro_op"] == Nested(micro') && GetText(micro, "op").Some?
    ensures GetText(micro', "op") == GetText(micro, "op")
  {
  }

  lemma SameKeys(op: DiskOp, micro: Struct, id: int, omitted: bool, micro': Struct, id': int, omitted': bool)
    requires GetText(micro', "op") == GetText(micro, "op")
    ensures CompiledRow(op, micro, id, omitted).Keys == CompiledRow(op, micro', id', omitted').Keys
  {
  }

  lemma FieldsArePlain(op: DiskOp)
    ensures "hidden_micro_op" !in Fields(op) && forall k :: k in Fields(op) ==> !Fields(op)[k].Nested?
  {
  }

  lemma OnlyMicroIsNested(op: DiskOp, micro: Struct, id: int, omitted: bool)
    ensures var a := CompiledRow(op, micro, id, omitted);
            && "hidden_micro_op" in a && a["hidden_micro_op"] == Nested(micro)
            && forall k :: k in a && a[k].Nested? ==> k == "hidden_micro_op"
  {
    hide Fields;
    FieldsArePlain(op);
  }
}
