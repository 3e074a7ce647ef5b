/**
 The inverse of the lookup code: laying out a tree of answers as a database
 file.  The repository holds no such writer; this one defines the files that
 its lookups are meant for, and shows that they read back what was written.
 */
module Writer {
  import opened Bits
  import opened Bytes
  import opened Trie
  import opened Structure
  import opened Handle
  import opened Names
  import opened City
  import opened Editions

  /** The two records of a node. */
  datatype Pair = Pair(left: nat, right: nat)

  /** The number of pairs that a tree takes. */
  function Size(t: Tree): nat {
    match t
    case Fork(l, r) => 1 + Size(l) + Size(r)
    case _ => 0
  }

  /** The record that leads to a subtree whose nodes begin at number `at`. */
  function Record(t: Tree, at: nat): nat {
    match t
    case Leaf(v) => v
    case _ => at
  }

  /** The pairs of a tree in preorder, the first one being node `at`. */
  function Nodes(t: Tree, at: nat): (nodes: seq<Pair>)
    ensures |nodes| == Size(t)
  {
    if t.Fork? then Preorder(Root(t, at), Nodes(t.zero, at + 1), Nodes(t.one, at + 1 + Size(t.zero)))
    else []
  }

  function Preorder(root: Pair, left: seq<Pair>, right: seq<Pair>): (nodes: seq<Pair>)
    ensures |nodes| == 1 + |left| + |right|
  {
    [root] + left + right
  }

  function NodeBytes(nodes: seq<Pair>, recordLength: nat): seq<Byte> {
    if nodes == [] then []
    else
      PairBytes(nodes[0], recordLength) + NodeBytes(nodes[1..], recordLength)
  }

  /** Every branch ends in a leaf whose value lies in `[first, limit)`. */
  predicate LeavesWithin(t: Tree, first: nat, limit: nat) {
    match t
    case Nothing => false
    case Leaf(v) => first <= v < limit
    case Fork(l, r) => LeavesWithin(l, first, limit) && LeavesWithin(r, first, limit)
  }

  // ---------------------------------------------------------------- the bytes hold the nodes

  lemma {:induction false} NodeBytesLength(nodes: seq<Pair>, recordLength: nat)
    ensures |NodeBytes(nodes, recordLength)| == 2 * recordLength * |nodes|
  {
    if nodes != [] {
      NodeBytesLength(nodes[1..], recordLength);
      NextPair(|nodes|, 2 * recordLength);
    }
  }

  function PairBytes(p: Pair, recordLength: nat): (bytes: seq<Byte>)
    ensures |bytes| == 2 * recordLength
  {
    LittleEndianBytes(p.left, recordLength) + LittleEndianBytes(p.right, recordLength)
  }

  /** Pair `i` stands at byte `i` times the pair length. */
  lemma {:induction false} PairStands(nodes: seq<Pair>, recordLength: nat, i: nat)
    requires i < |nodes|
    ensures StandsAt(NodeBytes(nodes, recordLength), 2 * recordLength * i, PairBytes(nodes[i], recordLength))
  {
    var head, rest := PairBytes(nodes[0], recordLength), NodeBytes(nodes[1..], recordLength);
    if i == 0 {
      assert StandsAt(head + rest, 0, head);
    } else {
      PairStands(nodes[1..], recordLength, i - 1);
      BehindHead(head, rest, 2 * recordLength, i, PairBytes(nodes[i], recordLength));
    }
  }

  lemma BehindHead(head: seq<Byte>, rest: seq<Byte>, pair: nat, i: nat, part: seq<Byte>)
    requires i > 0 && |head| == pair && StandsAt(rest, pair * (i - 1), part)
    ensures StandsAt(head + rest, pair * i, part)
  {
    NextPair(i, pair);
    StandsInside(head + rest, pair, rest, pair * (i - 1), part);
  }

  lemma NextPair(i: nat, pair: nat)
    requires i > 0
    ensures pair * i == pair + pair * (i - 1)
  {
  }

  /** Node `i` of the file is the given pair. */
  ghost predicate NodeIs(ix: Index, i: nat, node: Pair) {
    ix.HasNode(i) && ix.Child(i, false) == node.left && ix.Child(i, true) == node.right
  }

  /** A node whose pair stands in the file has the records of the pair as its children. */
  lemma PairGivesNode(ix: Index, i: nat, node: Pair)
    requires node.left < Pow2(8 * ix.recordLength) && node.right < Pow2(8 * ix.recordLength)
    requires StandsAt(ix.bytes, ix.At(i), PairBytes(node, ix.recordLength))
    ensures NodeIs(ix, i, node)
  {
    var r, at := ix.recordLength, ix.At(i);
    var left, right := LittleEndianBytes(node.left, r), LittleEndianBytes(node.right, r);
    StandsConcat(ix.bytes, at, left, right);
    StandsIsSlice(ix.bytes, at, left);
    StandsIsSlice(ix.bytes, at + r, right);
    LittleEndianRoundTrip(node.left, r);
    LittleEndianRoundTrip(node.right, r);
  }

  lemma WrittenNode(ix: Index, nodes: seq<Pair>, i: nat)
    requires StandsAt(ix.bytes, 0, NodeBytes(nodes, ix.recordLength)) && i < |nodes|
    requires nodes[i].left < Pow2(8 * ix.recordLength) && nodes[i].right < Pow2(8 * ix.recordLength)
    ensures NodeIs(ix, i, nodes[i])
  {
    PairStands(nodes, ix.recordLength, i);
    PairInFile(ix, NodeBytes(nodes, ix.recordLength), i, PairBytes(nodes[i], ix.recordLength));
    PairGivesNode(ix, i, nodes[i]);
  }

  lemma PairInFile(ix: Index, all: seq<Byte>, i: nat, pair: seq<Byte>)
    requires StandsAt(ix.bytes, 0, all) && StandsAt(all, 2 * ix.recordLength * i, pair)
    ensures StandsAt(ix.bytes, ix.At(i), pair)
  {
    StandsInside(ix.bytes, 0, all, 2 * ix.recordLength * i, pair);
  }

  // ---------------------------------------------------------------- walking the written nodes

  /** The first nodes of the file are the given pairs. */
  ghost predicate IsTable(ix: Index, table: seq<Pair>) {
    forall i | 0 <= i < |table| :: NodeIs(ix, i, table[i])
  }

  /** The pairs of a tree stand in a table from `at` on. */
  predicate Placed(table: seq<Pair>, t: Tree, at: nat) {
    StandsAt(table, at, Nodes(t, at))
  }

  /** The pair of the root of a tree whose nodes begin at number `at`. */
  function Root(t: Tree, at: nat): Pair
    requires t.Fork?
  {
    Pair(Record(t.zero, at + 1), Record(t.one, at + 1 + Size(t.zero)))
  }

  lemma PlacedParts(table: seq<Pair>, t: Tree, at: nat)
    requires t.Fork? && Placed(table, t, at)
    ensures at < |table| && table[at] == Root(t, at)
    ensures Placed(table, t.zero, at + 1)
    ensures Placed(table, t.one, at + 1 + Size(t.zero))
  {
    PartsStand(table, at, Root(t, at), Nodes(t.zero, at + 1), Nodes(t.one, at + 1 + Size(t.zero)));
  }

  lemma PartsStand(table: seq<Pair>, at: nat, root: Pair, left: seq<Pair>, right: seq<Pair>)
    requires StandsAt(table, at, Preorder(root, left, right))
    ensures at < |table| && table[at] == root
    ensures StandsAt(table, at + 1, left)
    ensures StandsAt(table, at + 1 + |left|, right)
  {
    StandsParts(table, at, root, left, right);
  }

  /** The walk over the written nodes of a tree is lookup in that tree. */
  lemma {:induction false} PlacedWalk(ix: Index, table: seq<Pair>, w: nat, num: nat, t: Tree, d: nat, at: nat,
                                      limit: nat)
    requires d <= w && t.Fork? && LeavesWithin(t, ix.segments, limit)
    requires IsTable(ix, table) && |table| <= ix.segments && Placed(table, t, at)
    ensures Descend(ix, w, num, d, at) == Select(t, num, d, w - d)
    decreases t
  {
    PlacedParts(table, t, at);
    assert NodeIs(ix, at, table[at]);
    if d > 0 {
      var right := Bit(num, d - 1);
      var child := if right then t.one else t.zero;
      var childAt := if right then at + 1 + Size(t.zero) else at + 1;
      if child.Fork? {
        PlacedWalk(ix, table, w, num, child, d - 1, childAt, limit);
      }
    }
  }

  // ---------------------------------------------------------------- whole files

  ghost predicate AllBelow(nodes: seq<Pair>, limit: nat) {
    forall i | 0 <= i < |nodes| :: nodes[i].left < limit && nodes[i].right < limit
  }

  lemma PreorderBelow(root: Pair, left: seq<Pair>, right: seq<Pair>, limit: nat)
    requires root.left < limit && root.right < limit && AllBelow(left, limit) && AllBelow(right, limit)
    ensures AllBelow(Preorder(root, left, right), limit)
  {
  }

  /** Records of a tree stay below `limit` when its leaves and its node numbers do. */
  lemma {:induction false} RecordsBounded(t: Tree, at: nat, first: nat, limit: nat)
    requires LeavesWithin(t, first, limit) && at + Size(t) <= limit
    ensures AllBelow(Nodes(t, at), limit)
    decreases t
  {
    if t.Fork? {
      RecordsBounded(t.zero, at + 1, first, limit);
      RecordsBounded(t.one, at + 1 + Size(t.zero), first, limit);
      PreorderBelow(Root(t, at), Nodes(t.zero, at + 1), Nodes(t.one, at + 1 + Size(t.zero)), limit);
    }
  }

  function RecordLengthOf(edition: Byte): nat {
    if HasWideRecords(edition) then ORG_RECORD_LENGTH else STANDARD_RECORD_LENGTH
  }

  /** The edition byte, and the segment count of the editions that store it, behind the marker. */
  function Trailer(t: Tree, edition: Byte): seq<Byte> {
    if StoresSegments(edition) then [edition] + LittleEndianBytes(Size(t), 3) else [edition]
  }

  /** The first value of an edition: the number of nodes, or a constant. */
  function FirstValue(t: Tree, edition: Byte): nat {
    match FixedSegments(edition)
    case Some(begin) => begin
    case None => Size(t)
  }

  /** Index, content and structure information. */
  function Body(t: Tree, content: seq<Byte>, edition: Byte): seq<Byte> {
    NodeBytes(Nodes(t, 0), RecordLengthOf(edition)) + content
  }

  function WrittenFile(t: Tree, content: seq<Byte>, edition: Byte): seq<Byte> {
    Body(t, content, edition) + [255, 255, 255] + Trailer(t, edition)
  }

  /** What can be written: a tree that is no leaf, for any edition, with leaves that
      are values of the edition, no more nodes than numbers below the first value, and
      not the one stored count whose three bytes would look like a second marker. */
  ghost predicate Writable(t: Tree, edition: Byte) {
    && (StoresSegments(edition) || FixedSegments(edition).Some?)
    && t.Fork? && Size(t) <= FirstValue(t, edition) && Size(t) < 0xFF_FFFF
    && LeavesWithin(t, FirstValue(t, edition), Pow2(8 * RecordLengthOf(edition)))
  }

  lemma TrailerIsClean(t: Tree, edition: Byte)
    requires Writable(t, edition)
    ensures CleanTrailer(Trailer(t, edition))
  {
    if StoresSegments(edition) {
      var count := LittleEndianBytes(Size(t), 3);
      var trailer := Trailer(t, edition);
      Pow2Values();
      LittleEndianRoundTrip(Size(t), 3);
      assert trailer[1..4] == count;
      UnrolledIsLittleEndian(count, 0);
      assert count[0..3] == count;
      assert trailer[1] == count[0] && trailer[2] == count[1] && trailer[3] == count[2];
    }
  }

  function LayoutFor(t: Tree, edition: Byte): Layout {
    Layout(edition, RecordLengthOf(edition), FirstValue(t, edition))
  }

  lemma TrailerLayout(t: Tree, edition: Byte)
    requires Writable(t, edition)
    ensures LayoutBehind(Trailer(t, edition), 0) == Some(LayoutFor(t, edition))
    ensures HasContent(edition) <==> StoresSegments(edition)
  {
    if StoresSegments(edition) {
      assert Trailer(t, edition)[1..4] == LittleEndianBytes(Size(t), 3);
      Pow2Values();
      LittleEndianRoundTrip(Size(t), 3);
    }
  }

  /** The library recovers edition, record length and first value from a written file. */
  lemma WrittenFileLayout(t: Tree, content: seq<Byte>, edition: Byte)
    requires Writable(t, edition)
    ensures var file := WrittenFile(t, content, edition);
            && LayoutOf(file) == Some(LayoutFor(t, edition))
            && IndexSize(file, LayoutFor(t, edition))
            == Some(if StoresSegments(edition) then |NodeBytes(Nodes(t, 0), RecordLengthOf(edition))| else |file|)
  {
    TrailerIsClean(t, edition);
    TrailerLayout(t, edition);
    MarkedLayout(Body(t, content, edition), Trailer(t, edition));
    NodeBytesLength(Nodes(t, 0), RecordLengthOf(edition));
    if StoresSegments(edition) {
      IndexSizeOfContent(WrittenFile(t, content, edition), LayoutFor(t, edition),
                         |NodeBytes(Nodes(t, 0), RecordLengthOf(edition))|);
    }
  }

  lemma IndexSizeOfContent(file: seq<Byte>, layout: Layout, n: nat)
    requires HasContent(layout.databaseType) && n <= |file| && n == 2 * layout.recordLength * layout.segments
    ensures IndexSize(file, layout) == Some(n)
  {
    assert layout.segments * layout.recordLength * 2 == 2 * layout.recordLength * layout.segments;
  }

  /** With the excluded segment count the last three bytes of the file
      are taken for the marker, and the file counts as corrupt. */
  lemma AllOnesCountIsCorrupt(t: Tree, content: seq<Byte>, edition: Byte)
    requires StoresSegments(edition) && Size(t) == 0xFF_FFFF
    ensures LayoutOf(WrittenFile(t, content, edition)) == None
  {
    var file := WrittenFile(t, content, edition);
    var count := LittleEndianBytes(Size(t), 3);
    assert count == [255, 255, 255];
    assert file[|file| - 3..] == count;
    assert file[|file| - 3] == count[0] && file[|file| - 2] == count[1] && file[|file| - 1] == count[2];
    LastRunUnique(file, 255, |file| - 3, STRUCTURE_INFO_MAX_SIZE, Hit(|file| - 3));
  }

  lemma WrittenIndexLookup(t: Tree, content: seq<Byte>, edition: Byte, w: nat, num: nat)
    requires Writable(t, edition)
    ensures Lookup(WrittenIndex(t, content, edition), w, num) == Select(t, num, w, 0)
  {
    var table := Nodes(t, 0);
    WrittenTable(t, content, edition);
    StandsIsSlice(table, 0, table);
    PlacedWalk(WrittenIndex(t, content, edition), table, w, num, t, w, 0, Pow2(8 * RecordLengthOf(edition)));
  }

  /** Looking up an address in a written file is looking it up in the tree that was written. */
  lemma WrittenFileLookup(t: Tree, content: seq<Byte>, edition: Byte, w: nat, num: nat)
    requires Writable(t, edition)
    ensures var file := WrittenFile(t, content, edition);
            && LayoutOf(file).Some?
            && Lookup(IndexOf(file, LayoutOf(file).value), w, num) == Select(t, num, w, 0)
  {
    WrittenFileLayout(t, content, edition);
    WrittenIndexLookup(t, content, edition, w, num);
  }

  /** A written file opens in every storage mode, and whatever bytes
      that mode reads, the walk over them is lookup in the tree. */
  lemma WrittenFileOpens(t: Tree, content: seq<Byte>, edition: Byte, mtime: int, flags: Flags, w: nat, num: nat)
    requires Writable(t, edition)
    ensures var state := OpenCore(FileVersion(WrittenFile(t, content, edition), mtime), flags);
            && state.Some?
            && Lookup(state.value.Index().(bytes := Source(state.value)), w, num) == Select(t, num, w, 0)
  {
    WrittenFileLayout(t, content, edition);
    WrittenFileLookup(t, content, edition, w, num);
    SourcesAgree(FileVersion(WrittenFile(t, content, edition), mtime), flags, w, num);
  }

  lemma WrittenTable(t: Tree, content: seq<Byte>, edition: Byte)
    requires Writable(t, edition)
    ensures IsTable(WrittenIndex(t, content, edition), Nodes(t, 0))
  {
    var r := RecordLengthOf(edition);
    var limit := Pow2(8 * r);
    Pow2Values();
    Pow2Monotonic(24, 8 * r);
    assert StandsAt(WrittenFile(t, content, edition), 0, NodeBytes(Nodes(t, 0), r));
    RecordsBounded(t, 0, FirstValue(t, edition), limit);
    forall i | 0 <= i < Size(t)
      ensures NodeIs(WrittenIndex(t, content, edition), i, Nodes(t, 0)[i])
    {
      WrittenNode(WrittenIndex(t, content, edition), Nodes(t, 0), i);
    }
  }

  function WrittenIndex(t: Tree, content: seq<Byte>, edition: Byte): Index {
    IndexOf(WrittenFile(t, content, edition), LayoutFor(t, edition))
  }

  // ---------------------------------------------------------------- content

  /** The content section stands behind the pairs of an index, and no pointer into it overflows. */
  ghost predicate HoldsContent(ix: Index, content: seq<Byte>) {
    ix.Valid() && |ix.bytes| < 0x8000_0000 && StandsAt(ix.bytes, ix.At(ix.segments), content)
  }

  /** A part of the content section stands where the record pointer of its value points. */
  lemma ContentPointer(ix: Index, content: seq<Byte>, offset: nat, part: seq<Byte>) returns (pointer: nat)
    requires HoldsContent(ix, content) && StandsAt(content, offset, part) && part != []
    ensures StandsAt(ix.bytes, pointer, part)
    ensures RecordPointer(ix, ix.segments + offset) == pointer
  {
    pointer := ix.At(ix.segments) + offset;
    StandsInside(ix.bytes, ix.At(ix.segments), content, offset, part);
    Pow2Values();
    RecordPointerIsPastIndex(ix, ix.segments + offset);
  }

  /** What a handle opened on a written file has read from it. */
  ghost predicate HasRead(core: Core, t: Tree, content: seq<Byte>, edition: Byte) {
    && core.Index() == WrittenIndex(t, content, edition)
    && core.databaseType == edition
    && (core.cache.Some? ==> core.cache.value == core.database)
  }

  lemma WrittenCore(t: Tree, content: seq<Byte>, edition: Byte, mtime: int, flags: Flags)
    requires Writable(t, edition)
    ensures OpenCore(FileVersion(WrittenFile(t, content, edition), mtime), flags).Some?
    ensures HasRead(OpenCore(FileVersion(WrittenFile(t, content, edition), mtime), flags).value, t, content, edition)
  {
    WrittenFileLayout(t, content, edition);
  }

  lemma WrittenContent(t: Tree, content: seq<Byte>, edition: Byte)
    requires Writable(t, edition) && StoresSegments(edition) && |WrittenFile(t, content, edition)| < 0x8000_0000
    ensures HoldsContent(WrittenIndex(t, content, edition), content)
    ensures WrittenIndex(t, content, edition).segments == Size(t)
  {
    StoredIsNotFixed(edition);
    NodeBytesLength(Nodes(t, 0), RecordLengthOf(edition));
    StandsBetween(NodeBytes(Nodes(t, 0), RecordLengthOf(edition)), content, Trailer(t, edition));
    Pow2Values();
  }

  lemma StoredIsNotFixed(edition: Byte)
    requires StoresSegments(edition)
    ensures FixedSegments(edition) == None
  {
  }

  lemma StandsBetween(index: seq<Byte>, content: seq<Byte>, trailer: seq<Byte>)
    ensures StandsAt(index + content + [255, 255, 255] + trailer, |index|, content)
  {
  }

  lemma NameOfSeek(core: Core, charset: Charset, w: nat, num: nat, seek: nat, x: NameResult)
    requires Lookup(core.Index(), w, num).Value() == seek != core.databaseSegments
    requires NameAt(core.cache, core.database, charset, RecordPointer(core.Index(), seek)) == x
    ensures NameFor(core, charset, w, num) == x
  {
  }

  /** A name that stands in the content section is read at its value. */
  lemma NameInContentSection(cache: Option<seq<Byte>>, ix: Index, charset: Charset, offset: nat, content: seq<Byte>,
                             name: CString)
    requires HoldsContent(ix, content) && (cache.Some? ==> cache.value == ix.bytes)
    requires StandsAt(content, offset, name + [0]) && |name| < MAX_ORG_RECORD_LENGTH
    ensures NameAt(cache, ix.bytes, charset, RecordPointer(ix, ix.segments + offset)) == Name(Converted(name, charset))
  {
    var pointer := ContentPointer(ix, content, offset, name + [0]);
    NameStands(ix.bytes, pointer, name, charset);
  }

  /** A name laid out in the content section is what the name lookup of its leaf returns, in every storage mode. */
  lemma WrittenName(t: Tree, content: seq<Byte>, edition: Byte, mtime: int, flags: Flags,
                    w: nat, num: nat, offset: nat, name: CString, charset: Charset)
    requires Writable(t, edition) && StoresSegments(edition) && |WrittenFile(t, content, edition)| < 0x8000_0000
    requires StandsAt(content, offset, name + [0]) && |name| <= 299 && offset > 0
    requires Select(t, num, w, 0).Found? && Select(t, num, w, 0).value == Size(t) + offset
    ensures var core := OpenCore(FileVersion(WrittenFile(t, content, edition), mtime), flags);
            && core.Some?
            && NameFor(core.value, charset, w, num) == Name(Converted(name, charset))
            && Renders(NameFor(core.value, charset, w, num).text, name, charset)
  {
    WrittenCore(t, content, edition, mtime, flags);
    WrittenContent(t, content, edition);
    WrittenIndexLookup(t, content, edition, w, num);
    var core := OpenCore(FileVersion(WrittenFile(t, content, edition), mtime), flags).value;
    ConvertedRenders(name, charset);
    NameInContentSection(core.cache, core.Index(), charset, offset, content, name);
    NameOfSeek(core, charset, w, num, Size(t) + offset, Name(Converted(name, charset)));
  }

  lemma RecordOfSeek(core: Core, charset: Charset, w: nat, num: nat, seek: nat, x: Extraction)
    requires Lookup(core.Index(), w, num).Value() == seek
    requires ExtractAt(core.cache, core.Index(), IsRev1(core.databaseType), charset, seek) == x
    ensures RecordFor(core, charset, w, num) == x
  {
  }

  /** A record that stands in the content section is extracted at its value. */
  lemma RecordInContentSection(cache: Option<seq<Byte>>, ix: Index, rev1: bool, charset: Charset, offset: nat,
                               content: seq<Byte>, r: CityRecord, code: seq<Byte>, seek: nat, x: Extraction)
    requires HoldsContent(ix, content) && (cache.Some? ==> cache.value == ix.bytes)
    requires seek == ix.segments + offset && offset > 0
    requires IsStored(r, code, rev1) && StandsAt(content, offset, code)
    requires x == Extracted(Presented(r, charset), |code|)
    ensures ExtractAt(cache, ix, rev1, charset, seek) == x
  {
    var pointer := ContentPointer(ix, content, offset, code);
    ExtractGiven(ix, rev1, charset, seek, pointer, r, code, x);
  }

  /** A City record laid out in the content section is what the
      record lookup of its leaf returns, in every storage mode. */
  lemma WrittenCityRecord(t: Tree, content: seq<Byte>, edition: Byte, mtime: int, flags: Flags,
                          w: nat, num: nat, offset: nat, r: CityRecord, code: seq<Byte>, charset: Charset)
    requires Writable(t, edition) && StoresSegments(edition) && |WrittenFile(t, content, edition)| < 0x8000_0000
    requires IsStored(r, code, IsRev1(edition)) && StandsAt(content, offset, code) && offset > 0
    requires Select(t, num, w, 0).Found? && Select(t, num, w, 0).value == Size(t) + offset
    ensures var core := OpenCore(FileVersion(WrittenFile(t, content, edition), mtime), flags);
            && core.Some?
            && RecordFor(core.value, charset, w, num) == Extracted(Presented(r, charset), |code|)
            && Yields(RecordFor(core.value, charset, w, num), r, |code|, charset)
  {
    WrittenCore(t, content, edition, mtime, flags);
    WrittenContent(t, content, edition);
    WrittenIndexLookup(t, content, edition, w, num);
    var core := OpenCore(FileVersion(WrittenFile(t, content, edition), mtime), flags).value;
    var seek, x := Size(t) + offset, Extracted(Presented(r, charset), |code|);
    PresentedShows(r, charset);
    RecordInContentSection(core.cache, core.Index(), IsRev1(edition), charset, offset, content, r, code, seek, x);
    RecordOfSeek(core, charset, w, num, seek, x);
  }

  // ---------------------------------------------------------------- values as answers

  /** In a written country file the code of an address is the distance
      of its leaf from the first value, in every storage mode. */
  lemma WrittenCountryCode(t: Tree, content: seq<Byte>, edition: Byte, mtime: int, flags: Flags, num: nat)
    requires Writable(t, edition) && edition in {1, 8, 10, 17} && Select(t, num, 32, 0).Found?
    ensures var core := OpenCore(FileVersion(WrittenFile(t, content, edition), mtime), flags);
            var i := Select(t, num, 32, 0).value - (if edition == 17 then 16515072 else 16776960);
            && core.Some? && core.value.databaseType == edition
            && CountryId(core.value.Index(), num) == i
            && CountryCode(core.value.Index(), num) == if 1 <= i <= 255 then Some(i) else None
  {
    WrittenCore(t, content, edition, mtime, flags);
    WrittenIndexLookup(t, content, edition, IPV4_BITS, num);
    Pow2Values();
    CountryIdSign(WrittenIndex(t, content, edition), num);
  }

  /** In a written Rev 1 region file the region of an address is
      the one that its leaf stands for, in every storage mode. */
  lemma WrittenRegion(t: Tree, content: seq<Byte>, mtime: int, flags: Flags, num: nat, r: Region)
    requires Writable(t, REGION_EDITION_REV1) && Select(t, num, IPV4_BITS, 0).Found?
    ensures var core := OpenCore(FileVersion(WrittenFile(t, content, REGION_EDITION_REV1), mtime), flags);
            && core.Some?
            && (RegionFor(core.value, num) == r <==> NamesRev1(Select(t, num, IPV4_BITS, 0).value, r))
  {
    var file := FileVersion(WrittenFile(t, content, REGION_EDITION_REV1), mtime);
    WrittenCore(t, content, REGION_EDITION_REV1, mtime, flags);
    WrittenIndexLookup(t, content, REGION_EDITION_REV1, IPV4_BITS, num);
    RegionOfAddressRev1(file, flags, num, r);
  }
}
