/** The database file as a map from page number to parsed page, shared by the page allocator
    (Freelist) and by auto-vacuum. */
module DbFile {
  import opened PointerMap
  import opened ByteTypes

  /** The pointer-map types. */
  datatype PtrType = RootPage | FreePage | Overflow1 | Overflow2 | BtreePage

  datatype PtrEntry = PtrEntry(kind: PtrType, parent: Pgno)

  /** A cell: its bytes outside the two page pointers, the left child (0 on a leaf) and the first
      overflow page (0 when the payload is local). */
  datatype Cell = Cell(payload: seq<byte>, child: Pgno, ovfl: Pgno)

  datatype Page =
    | Trunk(next: Pgno, leaves: seq<Pgno>)
    | Node(leaf: bool, cells: seq<Cell>, right: Pgno)
    | Ovfl(nextOvfl: Pgno, bytes: seq<byte>)
    | Blank
}
