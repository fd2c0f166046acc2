/** The in-memory tree (src/tag.rs:1-46) and the `nbt!` wrapper (src/tag.rs:187-207). */
module Tags {
  import opened Wrappers
  import opened Bytes

  /** A name, held as its modified-UTF-8 bytes; absent for the elements of a list. */
  type Name = Option<seq<byte>>

  /**
   * One node of the tree. Floats and doubles are carried as their IEEE bit
   * patterns; strings and names as their modified-UTF-8 bytes.
   */
  datatype Tag =
    | Byte(name: Name, byteValue: i8)
    | Short(name: Name, shortValue: i16)
    | Int(name: Name, intValue: i32)
    | Long(name: Name, longValue: i64)
    | Float(name: Name, floatBits: u32)
    | Double(name: Name, doubleBits: u64)
    | ByteArray(name: Name, bytes: seq<i8>)
    | String(name: Name, text: seq<byte>)
    | List(name: Name, elements: seq<Tag>)
    | Compound(name: Name, children: seq<Tag>)
    | IntArray(name: Name, ints: seq<i32>)
    | LongArray(name: Name, longs: seq<i64>)

  /** The wire type-id of each variant: Byte = 1 through LongArray = 12; 0 is never a tag. */
  function Id(t: Tag): (id: byte)
    ensures 1 <= id <= 12
    ensures id == 1 <==> t.Byte?
    ensures id == 2 <==> t.Short?
    ensures id == 3 <==> t.Int?
    ensures id == 4 <==> t.Long?
    ensures id == 5 <==> t.Float?
    ensures id == 6 <==> t.Double?
    ensures id == 7 <==> t.ByteArray?
    ensures id == 8 <==> t.String?
    ensures id == 9 <==> t.List?
    ensures id == 10 <==> t.Compound?
    ensures id == 11 <==> t.IntArray?
    ensures id == 12 <==> t.LongArray?
  {
    match t
    case Byte(_, _) => 1
    case Short(_, _) => 2
    case Int(_, _) => 3
    case Long(_, _) => 4
    case Float(_, _) => 5
    case Double(_, _) => 6
    case ByteArray(_, _) => 7
    case String(_, _) => 8
    case List(_, _) => 9
    case Compound(_, _) => 10
    case IntArray(_, _) => 11
    case LongArray(_, _) => 12
  }

  /** Two tags share a type-id exactly when they are of the same variant. */
  lemma IdsDistinguishVariants(a: Tag, b: Tag)
    ensures Id(a) == Id(b) <==>
      || (a.Byte? && b.Byte?) || (a.Short? && b.Short?) || (a.Int? && b.Int?)
      || (a.Long? && b.Long?) || (a.Float? && b.Float?) || (a.Double? && b.Double?)
      || (a.ByteArray? && b.ByteArray?) || (a.String? && b.String?) || (a.List? && b.List?)
      || (a.Compound? && b.Compound?) || (a.IntArray? && b.IntArray?) || (a.LongArray? && b.LongArray?)
  {
  }

  /** `nbt!(children..)`: the children wrapped in a compound whose name is the empty string. */
  function Nbt(children: seq<Tag>): (root: Tag)
    ensures root.Compound? && root.name == Some([])
    ensures root.children == children
  {
    Compound(Some([]), children)
  }
}
