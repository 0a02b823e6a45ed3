/** The path from a raw image to a loaded program: mount, lookup by name in the root directory
    (source/kernel.c), and the read of the file found (source/system/usermode/usermode.c). */
module Loader {
  import opened Words
  import opened PhysicalMemory
  import opened AllocatorClients
  import opened Ext2Format
  import opened Ext2
  import opened Directory

  // ---------------------------------------------------------------- names

  /** `test_strcmp` on two C strings in memory. */
  function Strcmp(s1: seq<Byte>, s2: seq<Byte>): int
    requires 0 in s1 && 0 in s2
  {
    if s1[0] != 0 && s1[0] == s2[0] then Strcmp(s1[1..], s2[1..]) else s1[0] as int - s2[0] as int
  }

  /** Dictionary order on the strings. */
  predicate Before(a: seq<Byte>, b: seq<Byte>) {
    b != [] && (a == [] || a[0] < b[0] || (a[0] == b[0] && Before(a[1..], b[1..])))
  }

  lemma {:induction false} StrcmpMeaning(s1: seq<Byte>, s2: seq<Byte>)
    requires 0 in s1 && 0 in s2
    ensures Strcmp(s1, s2) == 0 <==> CString(s1) == CString(s2)
    ensures Strcmp(s1, s2) < 0 <==> Before(CString(s1), CString(s2))
    decreases s1
  {
    if s1[0] != 0 && s1[0] == s2[0] {
      StrcmpMeaning(s1[1..], s2[1..]);
      assert CString(s1)[1..] == CString(s1[1..]) && CString(s2)[1..] == CString(s2[1..]);
    }
  }

  /** Otherwise the value is the difference of the first two bytes that differ, unsigned. */
  lemma {:induction false} StrcmpValue(s1: seq<Byte>, s2: seq<Byte>, n: nat)
    requires 0 in s1 && 0 in s2 && n < |s1| && n < |s2|
    requires forall k | 0 <= k < n :: s1[k] == s2[k] != 0
    requires s1[n] == 0 || s1[n] != s2[n]
    ensures Strcmp(s1, s2) == s1[n] as int - s2[n] as int
    decreases n
  {
    if n > 0 {
      StrcmpValue(s1[1..], s2[1..], n - 1);
    }
  }

  method TestStrcmp(s1: seq<Byte>, s2: seq<Byte>) returns (d: int)
    requires 0 in s1 && 0 in s2
    ensures d == Strcmp(s1, s2)
  {
    var i := 0;
    while s1[i] != 0 && s1[i] == s2[i]
      invariant 0 <= i < |s1| && i < |s2| && 0 in s1[i..] && 0 in s2[i..]
      invariant Strcmp(s1[i..], s2[i..]) == Strcmp(s1, s2)
      decreases |s1| - i
    {
      assert s1[i..][1..] == s1[i + 1..] && s2[i..][1..] == s2[i + 1..];
      i := i + 1;
    }
    return s1[i] as int - s2[i] as int;
  }

  /** A directory name without zero bytes reaches the callback as it is. */
  lemma {:induction false} NameArrives(name: seq<Byte>, rest: seq<Byte>)
    requires 0 !in name && rest != [] && rest[0] == 0
    ensures CString(name + rest) == name
    decreases name
  {
    if name != [] {
      NameArrives(name[1..], rest);
      assert (name + rest)[1..] == name[1..] + rest;
      assert (name + rest)[0] == name[0] && name[0] in name;
    }
  }

  // ---------------------------------------------------------------- lookup

  /** The place of the first of these names that is `name`. */
  function FirstNamed(names: seq<Name>, name: seq<Byte>): (r: Option<nat>)
    ensures r.Some? ==> r.value < |names| && names[r.value] == name
    ensures r.Some? ==> forall j | 0 <= j < r.value :: names[j] != name
    ensures r.None? ==> forall j | 0 <= j < |names| :: names[j] != name
  {
    if names == [] then None
    else if names[0] == name then Some(0)
    else match FirstNamed(names[1..], name)
      case None => None
      case Some(i) => Some(i + 1)
  }

  /** Searching the first `m` names finds the same name as searching all, if that lies among them. */
  lemma FirstInPrefix(names: seq<Name>, m: nat, name: seq<Byte>)
    requires m <= |names|
    ensures FirstNamed(names[..m], name) ==
            match FirstNamed(names, name)
            case Some(i) => if i < m then Some(i) else None
            case None => None
  {
    var all, part := FirstNamed(names, name), FirstNamed(names[..m], name);
    if part.Some? {
      assert names[part.value] == name;
    }
  }

  function EntryNames(entries: seq<Entry>): seq<Name> {
    seq(|entries|, i requires 0 <= i < |entries| => entries[i].name)
  }

  ghost predicate ZeroFree(names: seq<Name>) {
    forall i | 0 <= i < |names| :: 0 !in names[i]
  }

  /** `find_file_callback`: the context is the inode found and whether one was. */
  function FindCallback(target: seq<Byte>): ((U32, bool), CallArgs) -> ((U32, bool), bool)
    requires 0 in target
  {
    (ctx: (U32, bool), c: CallArgs) =>
      if 0 in c.name && Strcmp(c.name, target) == 0 then ((c.inode, true), false) else (ctx, true)
  }

  /** The walk with that callback finds the first entry of the target's name. */
  lemma {:induction false} FindIsFirst(target: seq<Byte>, entries: seq<Entry>)
    requires 0 in target && ZeroFree(EntryNames(entries))
    ensures Visit(FindCallback(target), (0, false), entries).0 ==
            match FirstNamed(EntryNames(entries), CString(target))
            case Some(i) => (entries[i].inode, true)
            case None => (0, false)
    decreases entries
  {
    if entries != [] {
      var names, c := EntryNames(entries), ArgsOf(entries[0]);
      assert names[0] == entries[0].name && names[1..] == EntryNames(entries[1..]);
      NameArrives(entries[0].name, seq(0x100 - |entries[0].name|, _ => 0));
      StrcmpMeaning(c.name, target);
      hide Strcmp;
      assert FindCallback(target)((0, false), c) ==
             if Strcmp(c.name, target) == 0 then ((c.inode, true), false) else ((0, false), true);
      FindIsFirst(target, entries[1..]);
    }
  }

  /** `ext2_find_file_inode_by_name`, without its listing of the directory: the inode number of the
      first entry of that name in the part of the directory the walk reaches, or 0. */
  method FindInode(fs: FileSystem, start: U32, ram: array<Byte>, target: seq<Byte>,
                   ghost v: Volume, ghost root: seq<seq<Record>>)
    returns (ino: U32)
    requires fs.Holds(v, start, ram) && WellFormed(v) && IsInode(v, ROOT_INO) && 0 in target
    requires IsDirectory(v, InodeOf(v, ROOT_INO), root) && ZeroFree(EntryNames(LiveIn(root)))
    ensures var seen := LiveIn(Reached(InodeOf(v, ROOT_INO), v.blockSize, root));
            ino == match FirstNamed(EntryNames(seen), CString(target))
                   case Some(i) => seen[i].inode
                   case None => 0
  {
    hide WellFormed, Directory.AllWellFormed, RecordBytes, Visit, FirstNamed, Reached, EntryNames;
    ino := 0;
    var ok, dir := fs.ReadInode(ROOT_INO, start, ram, v);
    if !ok {
      return;
    }
    var found := ReadDir(fs.image, fs.blockSize, dir, FindCallback(target), (0, false), v, root);
    ReachedEntries(dir, v.blockSize, root);
    ZeroFreePrefix(LiveIn(Reached(dir, v.blockSize, root)), LiveIn(root));
    FindIsFirst(target, LiveIn(Reached(dir, v.blockSize, root)));
    return found.0;
  }

  lemma ZeroFreePrefix(seen: seq<Entry>, entries: seq<Entry>)
    requires seen <= entries && ZeroFree(EntryNames(entries))
    ensures ZeroFree(EntryNames(seen))
    ensures EntryNames(seen) == EntryNames(entries)[..|seen|]
  {
    assert forall i | 0 <= i < |seen| :: EntryNames(seen)[i] == EntryNames(entries)[i];
  }

  // ---------------------------------------------------------------- files by name

  /** A file by its name; `None` for what is not a file, a device or a short symbolic link, say. */
  datatype File = File(name: Name, contents: Option<seq<Byte>>)

  function FileNames(files: seq<File>): seq<Name> {
    seq(|files|, i requires 0 <= i < |files| => files[i].name)
  }

  /** An inode holds these contents; of a longer file, the 12 direct blocks hold their share. */
  ghost predicate IsFile(v: Volume, inode: Inode, contents: seq<Byte>) {
    && v.blockSize > 0
    && PointersFit(v, inode)
    && SizeLo(inode) == |contents|
    && var n := Min(|contents|, StartOf(DIRECT_BLOCKS, v.blockSize));
       FileSlice(v, inode, 0, n) == contents[..n]
  }

  /** The volume holds these files in its root directory, whose blocks are `root`. */
  ghost predicate Encodes(v: Volume, root: seq<seq<Record>>, files: seq<File>) {
    && WellFormed(v)
    && IsInode(v, ROOT_INO)
    && IsDirectory(v, InodeOf(v, ROOT_INO), root)
    && FileNames(files) == EntryNames(LiveIn(root)) && ZeroFree(FileNames(files))
    && |files| == |LiveIn(root)|
    && forall i | 0 <= i < |files| ::
         var ino := LiveIn(root)[i].inode;
         IsInode(v, ino) && (files[i].contents.Some? ==> IsFile(v, InodeOf(v, ino), files[i].contents.value))
  }

  /** How many of the files the walk gets to see. */
  ghost function Reach(v: Volume, root: seq<seq<Record>>): nat
    requires WellFormed(v) && IsInode(v, ROOT_INO)
  {
    |LiveIn(Reached(InodeOf(v, ROOT_INO), v.blockSize, root))|
  }

  /** The walk gets to see every file exactly when no block it leaves out holds an entry, and so in
      every directory of at most 12 blocks without holes. */
  lemma AllReached(v: Volume, root: seq<seq<Record>>, files: seq<File>)
    requires Encodes(v, root, files)
    ensures var dir := InodeOf(v, ROOT_INO);
            && (Reach(v, root) == |files| <==>
                forall b | |Reached(dir, v.blockSize, root)| <= b < |root| :: Live(root[b]) == [])
            && (Accounted(dir, v.blockSize, |root|) && NoHoles(dir, |root|) && |root| <= DIRECT_BLOCKS ==>
                Reach(v, root) == |files|)
  {
    hide WellFormed, IsDirectory, Accounted, NoHoles, Reached;
    var dir := InodeOf(v, ROOT_INO);
    InodesHaveTables(v, ROOT_INO);
    ReachedEntries(dir, v.blockSize, root);
    if Accounted(dir, v.blockSize, |root|) {
      WholeIffNoHoles(v, dir, root);
    }
  }

  /** Lookup finds the first file of that name, if the walk gets to see it. */
  lemma LookupReaches(v: Volume, root: seq<seq<Record>>, files: seq<File>, name: seq<Byte>)
    requires Encodes(v, root, files)
    ensures v.blockSize >= 1024
    ensures var seen := LiveIn(Reached(InodeOf(v, ROOT_INO), v.blockSize, root));
            && seen <= LiveIn(root)
            && FirstNamed(EntryNames(seen), name) ==
               match FirstNamed(FileNames(files), name)
               case Some(i) => if i < |seen| then Some(i) else None
               case None => None
  {
    hide FirstNamed, WellFormed, EntryNames, IsDirectory, Reached;
    InodesHaveTables(v, ROOT_INO);
    var seen := LiveIn(Reached(InodeOf(v, ROOT_INO), v.blockSize, root));
    ReachedEntries(InodeOf(v, ROOT_INO), v.blockSize, root);
    ZeroFreePrefix(seen, LiveIn(root));
    FirstInPrefix(FileNames(files), |seen|, name);
  }

  /** What a program load amounts to. */
  datatype Outcome = NotFound | Incomplete(read: nat) | Loaded(read: nat)

  /** What lookup finds among the first `reach` is a file, and there is room for what a read brings:
      its contents, or as much of them as the direct blocks hold. */
  ghost predicate Readable(files: seq<File>, reach: nat, name: seq<Byte>, direct: nat, room: nat) {
    match FirstNamed(FileNames(files), name)
    case Some(i) => i < reach ==> files[i].contents.Some? && Min(|files[i].contents.value|, direct) <= room
    case None => true
  }

  /** The first file of that name, if it is among the first `reach`, comes whole when it fits in
      `direct` bytes and up to there when it does not; the rest of memory is left alone. */
  ghost predicate Delivered(files: seq<File>, reach: nat, name: seq<Byte>, direct: nat,
                            outcome: Outcome, before: seq<Byte>, after: seq<Byte>)
    requires Readable(files, reach, name, direct, |before|)
  {
    match FirstNamed(FileNames(files), name)
    case Some(i) =>
      if i < reach then
        var contents := files[i].contents.value;
        var n := Min(|contents|, direct);
        && outcome == (if |contents| <= direct then Loaded(n) else Incomplete(n))
        && after == contents[..n] + before[n..]
      else
        outcome == NotFound && after == before
    case None =>
      outcome == NotFound && after == before
  }

  /** Lookup, inode and read, on files by name. */
  method Load(fs: FileSystem, start: U32, ram: array<Byte>, name: seq<Byte>, out: array<Byte>,
              ghost v: Volume, ghost root: seq<seq<Record>>, ghost files: seq<File>)
    returns (outcome: Outcome)
    requires fs.Holds(v, start, ram) && Encodes(v, root, files) && 0 in name && out != ram
    requires Readable(files, Reach(v, root), CString(name), StartOf(DIRECT_BLOCKS, v.blockSize), out.Length)
    modifies out
    ensures Delivered(files, Reach(v, root), CString(name), StartOf(DIRECT_BLOCKS, v.blockSize),
                      outcome, old(out[..]), out[..])
  {
    hide FirstNamed, WellFormed, RecordBytes, StartOf, LiveIn, CString, IsDirectory, Reached, FileSlice;
    LookupReaches(v, root, files, CString(name));
    var ino := FindInode(fs, start, ram, name, v, root);
    if ino == 0 {
      return NotFound;
    }
    var ok, inode := fs.ReadInode(ino, start, ram, v);
    if !ok {
      return NotFound;
    }
    var read := fs.ReadFile(Some(inode), out, SizeLo(inode), 0, v);
    assert out[..] == out[..read] + out[read..];
    return if read != SizeLo(inode) then Incomplete(read) else Loaded(read);
  }

  /** From a raw image to a loaded program. The mount needs one free run for the descriptor table, and
      without it nothing happens. Once mounted, the run is one more live region apart from all others,
      and the load delivers the first file of that name, if the walk of the root directory reaches it. */
  method MountAndLoad(fs: FileSystem, image: seq<Byte>, alloc: Allocator, ram: array<Byte>, name: seq<Byte>,
                      out: array<Byte>, ghost live: seq<set<nat>>, ghost root: seq<seq<Record>>, ghost files: seq<File>)
    returns (mounted: bool, outcome: Outcome, ghost n: nat, ghost got: Option<nat>)
    requires Managed(alloc, ram) && out != ram && out as object != alloc.bitmap as object
    requires Partition(alloc.Free(), live)
    requires SUPER_OFFSET + SUPER_SIZE <= |image| && Magic(SuperOf(image)) == SUPER_MAGIC
    requires SuperFits(image, SuperOf(image))
    requires CanScan(alloc.Free(), alloc.sectors, Groups(SuperOf(image)) * 32)
    requires Encodes(VolumeOf(image), root, files) && 0 in name
    requires Readable(files, Reach(VolumeOf(image), root), CString(name),
                      StartOf(DIRECT_BLOCKS, VolumeOf(image).blockSize), out.Length)
    modifies fs, alloc.bitmap, ram, out
    ensures SectorsFor(Groups(SuperOf(image)) * 32, n) && got == FirstFit(old(alloc.Free()), alloc.sectors, n)
    ensures mounted <==> got.Some?
    ensures !mounted ==>
              && outcome == NotFound
              && alloc.bitmap[..] == old(alloc.bitmap[..]) && ram[..] == old(ram[..]) && out[..] == old(out[..])
    ensures mounted ==>
              && Placed(live, got.value, n, old(alloc.bitmap[..]), alloc.bitmap[..], old(ram[..]), ram[..])
              && Delivered(files, Reach(VolumeOf(image), root), CString(name),
                           StartOf(DIRECT_BLOCKS, VolumeOf(image).blockSize), outcome, old(out[..]), out[..])
  {
    hide Encodes, Readable, CanScan, StartOf, CString, SuperFits, SectorsFor, FirstFit, Delivered, Partition, Placed;
    outcome := NotFound;
    mounted, n, got := fs.Mount(image, alloc, ram, live);
    if mounted {
      outcome := Load(fs, alloc.start, ram, name, out, VolumeOf(image), root, files);
    }
  }
}
