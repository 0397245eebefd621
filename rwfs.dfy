/** The read-write filesystem helpers: the open-flag bits, `Stat`,
    `MkdirAll`, `WriteFile`, `Copy` and `CopyRecursive`. The writable
    filesystem is an in-memory store of names (`MemFS`) whose failures are
    given up front; the filesystem copied from is a read-only tree value. */
module Rwfs {
  import opened Wrappers
  import opened Strings
  import opened Paths

  type Bytes = seq<bv8>

  // ---------------------------------------------------------------------
  // Open flags: Go's `os` values on Linux. A Go `int` of flags is taken as
  // its 64-bit two's-complement bit pattern.

  const O_RDONLY: bv64 := 0
  const O_WRONLY: bv64 := 1
  const O_RDWR: bv64 := 2
  const O_APPEND: bv64 := 0x400
  const O_CREATE: bv64 := 0x40
  const O_EXCL: bv64 := 0x80
  const O_SYNC: bv64 := 0x101000
  const O_TRUNC: bv64 := 0x200

  /** The bits that choose the access mode. */
  const AccessBits: bv64 := O_RDONLY | O_WRONLY | O_RDWR

  /** The flags `WriteFile` opens with. */
  const WriteFlags: bv64 := O_WRONLY | O_CREATE | O_TRUNC

  /** The flags of `Create`, as `os.Create` opens. */
  const CreateFlags: bv64 := O_RDWR | O_CREATE | O_TRUNC

  /** `flagMode`: the access mode of `flags`. */
  function FlagMode(flags: bv64): (m: bv64)
    ensures m & !AccessBits == 0
    ensures (m ^ flags) & AccessBits == 0
  {
    flags & AccessBits
  }

  /** `flagSet`: whether `flags` holds any bit of `flag`. */
  predicate FlagSet(flag: bv64, flags: bv64): (b: bool)
    ensures b ==> flag != 0 && flags != 0
    ensures flag != 0 && flags & flag == flag ==> b
  {
    flags & flag != 0
  }

  /** Or-ing in option bits leaves the access mode alone. */
  lemma FlagModeIgnoresOptions(access: bv64, opts: bv64)
    requires opts & AccessBits == 0
    ensures FlagMode(access | opts) == FlagMode(access)
    ensures FlagMode(FlagMode(access)) == FlagMode(access)
  {
  }

  /** A flag is set in a union exactly when it is set in a part. */
  lemma FlagSetUnion(flag: bv64, a: bv64, b: bv64)
    ensures FlagSet(flag, a | b) <==> FlagSet(flag, a) || FlagSet(flag, b)
  {
    assert (a | b) & flag == (a & flag) | (b & flag);
  }

  /** `O_RDONLY` is zero, so `flagSet` never reports it. */
  lemma ReadOnlyNeverSet(flags: bv64)
    ensures !FlagSet(O_RDONLY, flags)
  {
  }

  /** What the two fixed flag sets ask for. */
  lemma OpenFlagSets()
    ensures FlagMode(WriteFlags) == O_WRONLY && FlagMode(CreateFlags) == O_RDWR
    ensures FlagSet(O_CREATE, WriteFlags) && FlagSet(O_TRUNC, WriteFlags)
    ensures !FlagSet(O_EXCL, WriteFlags) && !FlagSet(O_APPEND, WriteFlags)
    ensures FlagSet(O_CREATE, CreateFlags) && FlagSet(O_TRUNC, CreateFlags) && !FlagSet(O_EXCL, CreateFlags)
  {
  }

  // ---------------------------------------------------------------------
  // The writable store

  /** Filesystem errors; `PathError` wraps one with the operation and name. */
  datatype FsError =
    | ErrInvalid | ErrPermission | ErrExist | ErrNotExist | ErrIsDir | ErrBadHandle | ErrIO
    | PathError(op: string, path: string, err: FsError)

  /** What a name holds. */
  datatype Node = File(data: Bytes) | Dir

  /** The part of a file's information the helpers look at. */
  datatype Info = Info(isDir: bool)

  /** The names the store refuses to open or create, and the errors that
      writing to or closing a given name reports. */
  datatype Faults = Faults(locked: set<string>, writeErr: map<string, FsError>, closeErr: map<string, FsError>)

  type Store = map<string, Node>

  /** The names of the top directory, which always exists. */
  predicate IsTop(name: string) {
    name == "." || name == "/"
  }

  /** What `name` holds, if anything. */
  function At(store: Store, name: string): Option<Node> {
    if IsTop(name) then Some(Dir)
    else if name != "" && name in store then Some(store[name])
    else None
  }

  /** The index of the last slash of `s`, or -1. */
  function LastSlash(s: string): (k: int)
    ensures -1 <= k < |s|
    ensures k >= 0 ==> s[k] == '/'
  {
    if s == [] then -1
    else if s[|s| - 1] == '/' then |s| - 1
    else LastSlash(s[..|s| - 1])
  }

  /** The directory a new name is created in. */
  function Parent(name: string): string {
    var k := LastSlash(name);
    if k < 0 then "." else if k == 0 then "/" else name[..k]
  }

  /** A new entry may be made for `name`: it is a real name and its parent
      is a directory. */
  predicate Creatable(store: Store, name: string) {
    name != "" && At(store, Parent(name)) == Some(Dir)
  }

  /** `Stat`: opening fails for a locked or missing name; otherwise it says
      whether the name is a directory. */
  function Stat(store: Store, faults: Faults, name: string): (r: Result<Info, FsError>)
    ensures name in faults.locked ==> r == Err(ErrPermission)
    ensures name !in faults.locked ==> (r.Ok? <==> At(store, name).Some?)
    ensures r.Err? ==> r.error == ErrPermission || r.error == ErrNotExist
    ensures r.Ok? ==> (r.value.isDir <==> At(store, name) == Some(Dir))
  {
    if name in faults.locked then Err(ErrPermission)
    else match At(store, name)
      case None => Err(ErrNotExist)
      case Some(n) => Ok(Info(n.Dir?))
  }

  /** `Mkdir`: refused for a locked name, an existing one, or one whose parent
      is not a directory; otherwise the name becomes an empty directory. */
  function MkdirOn(store: Store, faults: Faults, name: string): (Option<FsError>, Store) {
    if name in faults.locked then (Some(ErrPermission), store)
    else if At(store, name).Some? then (Some(ErrExist), store)
    else if !Creatable(store, name) then (Some(ErrNotExist), store)
    else (None, store[name := Dir])
  }

  /** An open file: its name and the flags it was opened with. */
  datatype Handle = Handle(name: string, flags: bv64)

  /** `OpenFile`: an existing name is refused with both `O_CREATE` and
      `O_EXCL`, or when it is a directory opened for writing, and a file is
      emptied by `O_TRUNC`; a missing name is created empty with `O_CREATE`
      when its parent is a directory. */
  function OpenOn(store: Store, faults: Faults, name: string, flags: bv64): (Result<Handle, FsError>, Store) {
    if name in faults.locked then (Err(ErrPermission), store)
    else match At(store, name)
      case Some(n) =>
        if FlagSet(O_CREATE, flags) && FlagSet(O_EXCL, flags) then (Err(ErrExist), store)
        else if n.Dir? && FlagMode(flags) != O_RDONLY then (Err(ErrIsDir), store)
        else if n.File? && FlagSet(O_TRUNC, flags) then (Ok(Handle(name, flags)), store[name := File([])])
        else (Ok(Handle(name, flags)), store)
      case None =>
        if !FlagSet(O_CREATE, flags) || !Creatable(store, name) then (Err(ErrNotExist), store)
        else (Ok(Handle(name, flags)), store[name := File([])])
  }

  /** `Write` through a handle: refused on a read-only handle; a name with an
      injected write error fails with nothing written; otherwise the bytes go
      at the end of the file. */
  function WriteOn(store: Store, faults: Faults, h: Handle, data: Bytes): (Option<FsError>, Store) {
    if FlagMode(h.flags) == O_RDONLY then (Some(ErrBadHandle), store)
    else if h.name in faults.writeErr then (Some(faults.writeErr[h.name]), store)
    else match At(store, h.name)
      case Some(File(prev)) => (None, store[h.name := File(prev + data)])
      case _ => (Some(ErrNotExist), store)
  }

  /** `Close`: the injected close error of the name, if any. */
  function CloseOn(faults: Faults, h: Handle): Option<FsError> {
    if h.name in faults.closeErr then Some(faults.closeErr[h.name]) else None
  }

  /** No name disappears and every directory stays one. */
  ghost predicate Grows(before: Store, after: Store) {
    && (forall p :: p in before ==> p in after)
    && (forall p :: p in before && before[p] == Dir ==> after[p] == Dir)
  }

  /** A successful `Mkdir` makes a directory that `Stat` reports, and changes
      nothing else; a failed one changes nothing. */
  lemma MkdirStat(store: Store, faults: Faults, name: string)
    ensures var m := MkdirOn(store, faults, name);
      && (m.0.None? ==> m.1 == store[name := Dir] && name !in store && Stat(m.1, faults, name) == Ok(Info(true)))
      && (m.0.Some? ==> m.1 == store)
      && (m.0.None? <==> name !in faults.locked && At(store, name).None? && Creatable(store, name))
  {
    var m := MkdirOn(store, faults, name);
    if m.0.None? {
      assert At(m.1, name) == Some(Dir);
    }
  }


  /** `Mkdir` leaves every other name as it was. */
  lemma MkdirOnly(store: Store, faults: Faults, name: string, n: string)
    requires n != name
    ensures Same(store, MkdirOn(store, faults, name).1, n)
  {
  }

  /** `Mkdir` never removes a name or turns a directory into something else. */
  lemma MkdirGrows(store: Store, faults: Faults, name: string)
    ensures Grows(store, MkdirOn(store, faults, name).1)
  {
  }

  /** Nor does `OpenFile`: only a file is emptied. */
  lemma OpenGrows(store: Store, faults: Faults, name: string, flags: bv64)
    ensures Grows(store, OpenOn(store, faults, name, flags).1)
  {
    var o := OpenOn(store, faults, name, flags);
    if o.1 != store {
      assert o.1 == store[name := File([])];
      assert name !in store || store[name].File?;
    }
  }

  /** Nor does `Write`: only a file grows. */
  lemma WriteGrows(store: Store, faults: Faults, h: Handle, data: Bytes)
    ensures Grows(store, WriteOn(store, faults, h, data).1)
  {
  }

  // ---------------------------------------------------------------------
  // WriteFile

  /** `WriteFile`: open for writing with create and truncate, write, close;
      the close's error is reported only when the write succeeded. */
  function WriteFileSpec(store: Store, faults: Faults, name: string, data: Bytes): (Option<FsError>, Store) {
    var o := OpenOn(store, faults, name, WriteFlags);
    if o.0.Err? then (Some(o.0.error), o.1)
    else
      var w := WriteOn(o.1, faults, o.0.value, data);
      (if w.0.None? then CloseOn(faults, o.0.value) else w.0, w.1)
  }

  /** Opening `name` to write it succeeds: it is not locked, not a
      directory, and either exists or can be created. */
  predicate Writable(store: Store, faults: Faults, name: string) {
    && name !in faults.locked
    && At(store, name) != Some(Dir)
    && (At(store, name).Some? || Creatable(store, name))
  }

  /** What `WriteFile` leaves behind: nothing when the name cannot be opened;
      an emptied file and the write's error when the write fails, whatever the
      close does; otherwise a file holding exactly `data`, and the close's
      error. No other name changes. */
  lemma WriteFileOutcome(store: Store, faults: Faults, name: string, data: Bytes)
    ensures var r := WriteFileSpec(store, faults, name, data);
      && (!Writable(store, faults, name) ==> r.0.Some? && r.1 == store)
      && (Writable(store, faults, name) && name in faults.writeErr ==>
            r == (Some(faults.writeErr[name]), store[name := File([])]))
      && (Writable(store, faults, name) && name !in faults.writeErr ==>
            r == (if name in faults.closeErr then Some(faults.closeErr[name]) else None, store[name := File(data)]))
  {
    OpenFlagSets();
    var o := OpenOn(store, faults, name, WriteFlags);
    if Writable(store, faults, name) {
      assert o.0 == Ok(Handle(name, WriteFlags)) && o.1 == store[name := File([])];
      assert At(o.1, name) == Some(File([]));
      assert [] + data == data;
      if name !in faults.writeErr {
        var w := WriteOn(o.1, faults, o.0.value, data);
        assert w == (None, o.1[name := File([] + data)]);
        assert o.1[name := File(data)] == store[name := File(data)];
      }
    }
  }

  /** After a successful `WriteFile`, `Stat` sees a file that is not a
      directory. */
  lemma WriteFileStat(store: Store, faults: Faults, name: string, data: Bytes)
    ensures var r := WriteFileSpec(store, faults, name, data);
      r.0.None? ==> Stat(r.1, faults, name) == Ok(Info(false))
  {
    WriteFileOutcome(store, faults, name, data);
    var r := WriteFileSpec(store, faults, name, data);
    if r.0.None? {
      assert At(r.1, name) == Some(File(data));
    }
  }

  // ---------------------------------------------------------------------
  // The filesystem copied from

  /** An entry of the read-only filesystem: a file and its bytes, a directory
      and its listing in the order `fs.ReadDir` returns it, or an entry that
      cannot be opened. */
  datatype Entry = FileEntry(data: Bytes) | DirEntry(entries: seq<(string, Entry)>) | DeniedEntry

  /** `fs.ValidPath`: "." for the top, or slash-separated plain elements. */
  predicate ValidPath(name: string) {
    name == "." || AllPlain(Split(name, '/'))
  }

  /** The first listed entry called `n`. */
  function Find(entries: seq<(string, Entry)>, n: string): Option<Entry> {
    if entries == [] then None
    else if entries[0].0 == n then Some(entries[0].1)
    else Find(entries[1..], n)
  }

  /** Walking down `comps` from `e`: an unopenable entry on the way is a
      permission error, a missing name or a file in the middle is not found. */
  function Walk(e: Entry, comps: seq<string>): (r: Result<Entry, FsError>)
    ensures r.Ok? ==> !r.value.DeniedEntry?
    decreases |comps|
  {
    if e.DeniedEntry? then Err(ErrPermission)
    else if comps == [] then Ok(e)
    else if e.FileEntry? then Err(ErrNotExist)
    else match Find(e.entries, comps[0])
      case None => Err(ErrNotExist)
      case Some(c) => Walk(c, comps[1..])
  }

  /** `Open` on the filesystem copied from: an invalid name is refused, and
      what is opened can always be read. */
  function Open(root: Entry, name: string): (r: Result<Entry, FsError>)
    ensures !ValidPath(name) ==> r == Err(ErrInvalid)
    ensures r.Ok? ==> !r.value.DeniedEntry?
  {
    if !ValidPath(name) then Err(ErrInvalid)
    else Walk(root, if name == "." then [] else Split(name, '/'))
  }

  // ---------------------------------------------------------------------
  // Copy

  /** `Copy` once the source is open: create the destination, then copy the
      bytes (an empty file needs no write, reading a directory fails); the
      error of the deferred close of the destination is dropped. */
  function CopyOpened(store: Store, faults: Faults, e: Entry, destName: string): (Option<FsError>, Store) {
    var o := OpenOn(store, faults, destName, CreateFlags);
    if o.0.Err? then (Some(o.0.error), o.1)
    else match e
      case FileEntry(data) => if data == [] then (None, o.1) else WriteOn(o.1, faults, o.0.value, data)
      case DirEntry(_) => (Some(ErrIsDir), o.1)
      // Open never yields a denied entry; the case keeps the function total
      case DeniedEntry => (Some(ErrPermission), o.1)
  }

  /** `Copy`: open the source, then copy what it holds. */
  function CopySpec(store: Store, faults: Faults, src: Entry, srcName: string, destName: string): (Option<FsError>, Store) {
    match Open(src, srcName)
    case Err(e) => (Some(e), store)
    case Ok(e) => CopyOpened(store, faults, e, destName)
  }

  /** What `Copy` does: a source that does not open changes nothing; a file
      copies exactly when the destination can be created and, for a non-empty
      file, written, close errors playing no part, and then the destination
      holds the source's bytes and nothing else changes; a directory never
      copies. */
  lemma CopyOutcome(store: Store, faults: Faults, src: Entry, srcName: string, destName: string)
    ensures var r := CopySpec(store, faults, src, srcName, destName);
      var o := Open(src, srcName);
      && (o.Err? ==> r == (Some(o.error), store))
      && (o.Ok? && o.value.FileEntry? ==>
            (r.0.None? <==> Writable(store, faults, destName) && (o.value.data == [] || destName !in faults.writeErr)))
      && (o.Ok? && o.value.FileEntry? && r.0.None? ==> r.1 == store[destName := File(o.value.data)])
      && (o.Ok? && o.value.DirEntry? ==> r.0.Some?)
  {
    OpenFlagSets();
    var o := Open(src, srcName);
    if o.Ok? && Writable(store, faults, destName) {
      var c := OpenOn(store, faults, destName, CreateFlags);
      assert c.0 == Ok(Handle(destName, CreateFlags)) && c.1 == store[destName := File([])];
      assert At(c.1, destName) == Some(File([]));
      if o.value.FileEntry? {
        assert [] + o.value.data == o.value.data;
      }
    }
  }

  // ---------------------------------------------------------------------
  // CopyRecursive

  /** `CopyRecursive` on an opened entry: a file is copied as `Copy` does; a
      directory is made (one that already exists is fine) and each listed
      entry is copied under it in order, stopping at the first error. */
  function CopyEntrySpec(store: Store, faults: Faults, e: Entry, destName: string): (Option<FsError>, Store)
    decreases e, 1, 0
  {
    match e
    case DeniedEntry => (Some(ErrPermission), store)
    case FileEntry(_) => CopyOpened(store, faults, e, destName)
    case DirEntry(_) =>
      var m := MkdirOn(store, faults, destName);
      if m.0.Some? && m.0.value != ErrExist then m
      else CopyEntriesSpec(m.1, faults, e, 0, destName)
  }

  /** The listed entries of `d` from the `i`th on, each copied to its name
      joined onto `destName`. */
  function CopyEntriesSpec(store: Store, faults: Faults, d: Entry, i: nat, destName: string): (Option<FsError>, Store)
    requires d.DirEntry? && i <= |d.entries|
    decreases d, 0, |d.entries| - i
  {
    if i == |d.entries| then (None, store)
    else
      var c := CopyEntrySpec(store, faults, d.entries[i].1, Join([destName, d.entries[i].0]));
      if c.0.Some? then c else CopyEntriesSpec(c.1, faults, d, i + 1, destName)
  }

  /** `CopyRecursive`: open the source, then copy the tree it holds. */
  function CopyRecursiveSpec(store: Store, faults: Faults, src: Entry, srcName: string, destName: string): (Option<FsError>, Store) {
    match Open(src, srcName)
    case Err(e) => (Some(e), store)
    case Ok(e) => CopyEntrySpec(store, faults, e, destName)
  }

  /** A source that is not a directory is copied exactly as `Copy` does. */
  lemma CopyRecursiveFile(store: Store, faults: Faults, src: Entry, srcName: string, destName: string)
    requires Open(src, srcName).Ok? && !Open(src, srcName).value.DirEntry?
    ensures CopyRecursiveSpec(store, faults, src, srcName, destName) == CopySpec(store, faults, src, srcName, destName)
  {
    assert Open(src, srcName).value.FileEntry?;
  }

  /** Making the destination directory fails for a reason other than its
      existing: nothing is copied and nothing changes. */
  lemma CopyRecursiveMkdirFails(store: Store, faults: Faults, src: Entry, srcName: string, destName: string)
    requires Open(src, srcName).Ok? && Open(src, srcName).value.DirEntry?
    requires MkdirOn(store, faults, destName).0.Some? && MkdirOn(store, faults, destName).0.value != ErrExist
    ensures CopyRecursiveSpec(store, faults, src, srcName, destName) == (MkdirOn(store, faults, destName).0, store)
  {
  }

  /** Copying a tree never removes a name or turns a directory into a file. */
  lemma {:induction false} CopyEntryGrows(store: Store, faults: Faults, e: Entry, destName: string)
    ensures Grows(store, CopyEntrySpec(store, faults, e, destName).1)
    decreases e, 1, 0
  {
    match e
    case DeniedEntry =>
    case FileEntry(data) =>
      var o := OpenOn(store, faults, destName, CreateFlags);
      OpenGrows(store, faults, destName, CreateFlags);
      if o.0.Ok? {
        WriteGrows(o.1, faults, o.0.value, data);
      }
    case DirEntry(_) =>
      var m := MkdirOn(store, faults, destName);
      MkdirGrows(store, faults, destName);
      if !(m.0.Some? && m.0.value != ErrExist) {
        CopyEntriesGrows(m.1, faults, e, 0, destName);
      }
  }

  lemma {:induction false} CopyEntriesGrows(store: Store, faults: Faults, d: Entry, i: nat, destName: string)
    requires d.DirEntry? && i <= |d.entries|
    ensures Grows(store, CopyEntriesSpec(store, faults, d, i, destName).1)
    decreases d, 0, |d.entries| - i
  {
    if i < |d.entries| {
      var dest := Join([destName, d.entries[i].0]);
      var c := CopyEntrySpec(store, faults, d.entries[i].1, dest);
      CopyEntryGrows(store, faults, d.entries[i].1, dest);
      if c.0.None? {
        CopyEntriesGrows(c.1, faults, d, i + 1, destName);
      }
    }
  }

  /** A directory copied without error leaves a directory at the
      destination, unless a file was already there: `Mkdir`'s "exists" is
      taken as success whatever exists. */
  lemma CopyDirResult(store: Store, faults: Faults, src: Entry, srcName: string, destName: string)
    requires Open(src, srcName).Ok? && Open(src, srcName).value.DirEntry?
    ensures var r := CopyRecursiveSpec(store, faults, src, srcName, destName);
      r.0.None? ==> At(r.1, destName) == Some(Dir) || (At(store, destName).Some? && At(store, destName).value.File?)
  {
    var e := Open(src, srcName).value;
    var m := MkdirOn(store, faults, destName);
    var r := CopyRecursiveSpec(store, faults, src, srcName, destName);
    if r.0.None? && !IsTop(destName) {
      assert r == CopyEntriesSpec(m.1, faults, e, 0, destName);
      CopyEntriesGrows(m.1, faults, e, 0, destName);
      if m.0.None? {
        assert m.1[destName] == Dir;
      } else {
        assert m.0.value == ErrExist;
        assert m.1 == store && destName in store;
      }
    }
  }

  // ---------------------------------------------------------------------
  // What CopyRecursive copies

  /** A source tree as `fs.ReadDir` lists it: every listed name is a plain
      path element, and no directory lists a name twice. */
  predicate WellNamed(e: Entry)
    decreases e
  {
    e.DirEntry? ==>
      && (forall k :: 0 <= k < |e.entries| ==> Plain(e.entries[k].0) && WellNamed(e.entries[k].1))
      && (forall k, l :: 0 <= k < l < |e.entries| ==> e.entries[k].0 != e.entries[l].0)
  }

  /** The destination name made of the path elements `cs`. */
  function Name(cs: seq<string>): string {
    JoinWith(cs, '/')
  }

  /** `n` is `cs` itself or lies below it, element by element. */
  predicate Under(n: string, cs: seq<string>) {
    var parts := Split(n, '/');
    |cs| <= |parts| && parts[..|cs|] == cs
  }

  /** The names listed by `d` from its `i`th entry on. */
  function NamesFrom(d: Entry, i: nat): set<string>
    requires d.DirEntry?
  {
    set k | i <= k < |d.entries| :: d.entries[k].0
  }

  /** `n` lies below `cs` by one of the names `d` lists from its `i`th entry
      on. */
  predicate Beneath(n: string, cs: seq<string>, d: Entry, i: nat)
    requires d.DirEntry?
  {
    var parts := Split(n, '/');
    |cs| < |parts| && parts[..|cs|] == cs && parts[|cs|] in NamesFrom(d, i)
  }

  /** `n` is present in both stores or in neither, with the same node. */
  predicate Same(a: Store, b: Store, n: string) {
    (n in a <==> n in b) && (n in a ==> a[n] == b[n])
  }

  /** An entry copied to `n`: a file holds the source's bytes; a directory is
      a directory, or was a file before the copy began. */
  predicate Copied(before: Store, after: Store, e: Entry, n: string) {
    && (e.FileEntry? ==> At(after, n) == Some(File(e.data)))
    && (e.DirEntry? ==> At(after, n) == Some(Dir) || (At(before, n).Some? && At(before, n).value.File?))
  }

  /** A copy stays in place while the name is left alone. */
  lemma CopiedThenSame(before: Store, mid: Store, after: Store, e: Entry, n: string)
    requires Copied(before, mid, e, n) && Same(mid, after, n)
    ensures Copied(before, after, e, n)
  {
    assert At(mid, n) == At(after, n);
  }

  /** A copy made after the name was left alone is a copy from the start. */
  lemma SameThenCopied(before: Store, mid: Store, after: Store, e: Entry, n: string)
    requires Same(before, mid, n) && Copied(mid, after, e, n)
    ensures Copied(before, after, e, n)
  {
    assert At(before, n) == At(mid, n);
  }

  /** A name of plain elements reads back as those elements, and is a real,
      non-top name. */
  lemma NameSplit(cs: seq<string>)
    requires |cs| >= 1 && AllPlain(cs)
    ensures Split(Name(cs), '/') == cs
    ensures Name(cs) != "" && !IsTop(Name(cs))
  {
    SplitJoin(cs, '/');
    if Name(cs) == "." {
      SplitSingle(".", '/');
    }
  }

  /** `path.Join` of a plain name onto a name of plain elements appends it. */
  lemma JoinChild(cs: seq<string>, a: string)
    requires |cs| >= 1 && AllPlain(cs) && Plain(a)
    ensures Join([Name(cs), a]) == Name(cs + [a])
  {
    var d := Name(cs);
    NameSplit(cs);
    JoinWithPrefix(cs, [a], '/');
    assert Name(cs + [a]) == d + "/" + a;
    assert [d, a][1..] == [a] && "" + d == d && [a][1..] == [];
    assert JoinBuf([d, a], "") == JoinBuf([a], d);
    assert JoinBuf([a], d) == JoinBuf([], d + "/" + a);
    assert AllPlain(cs + [a]);
    CleanPlain(cs + [a]);
  }

  /** The first entry listed under a name sits at some index. */
  lemma {:induction false} FindIndex(entries: seq<(string, Entry)>, a: string) returns (k: nat)
    requires Find(entries, a).Some?
    ensures k < |entries| && entries[k].0 == a && entries[k].1 == Find(entries, a).value
  {
    if entries[0].0 == a {
      k := 0;
    } else {
      var k' := FindIndex(entries[1..], a);
      k := k' + 1;
    }
  }

  /** A path that walks to an entry of a well-named tree is made of plain
      elements, and leads to a well-named entry. */
  lemma {:induction false} WalkPlain(e: Entry, p: seq<string>)
    requires WellNamed(e) && Walk(e, p).Ok?
    ensures AllPlain(p) && WellNamed(Walk(e, p).value)
    decreases |p|
  {
    if p != [] {
      var k := FindIndex(e.entries, p[0]);
      WalkPlain(e.entries[k].1, p[1..]);
      assert p == [p[0]] + p[1..];
    }
  }

  /** Only the destination itself changes when a file is copied. */
  lemma CopyOpenedOnly(store: Store, faults: Faults, e: Entry, destName: string)
    ensures var r := CopyOpened(store, faults, e, destName);
      forall n :: n != destName ==> Same(store, r.1, n)
  {
  }

  /** A file copied without error holds the source's bytes. */
  lemma CopyOpenedFile(store: Store, faults: Faults, data: Bytes, destName: string)
    ensures var r := CopyOpened(store, faults, FileEntry(data), destName);
      r.0.None? ==> At(r.1, destName) == Some(File(data))
  {
    OpenFlagSets();
    var o := OpenOn(store, faults, destName, CreateFlags);
    if o.0.Ok? {
      assert o.1 == store[destName := File([])];
      assert [] + data == data;
    }
  }

  /** A name not below `cs` by the `i`th entry or a later one is neither
      below that entry's own destination nor below a later entry's. */
  lemma OutsideChild(n: string, cs: seq<string>, d: Entry, i: nat)
    requires d.DirEntry? && i < |d.entries| && !Beneath(n, cs, d, i)
    ensures !Under(n, cs + [d.entries[i].0]) && !Beneath(n, cs, d, i + 1)
  {
    assert d.entries[i].0 in NamesFrom(d, i);
  }

  /** A recursive copy to `cs` changes no name outside `cs`. */
  lemma {:induction false} CopyEntryFrame(store: Store, faults: Faults, e: Entry, cs: seq<string>)
    requires |cs| >= 1 && AllPlain(cs) && WellNamed(e)
    ensures var r := CopyEntrySpec(store, faults, e, Name(cs));
      forall n :: !Under(n, cs) ==> Same(store, r.1, n)
    decreases e, 1, 0
  {
    NameSplit(cs);
    match e
    case DeniedEntry =>
    case FileEntry(_) => CopyOpenedOnly(store, faults, e, Name(cs));
    case DirEntry(_) =>
      var m := MkdirOn(store, faults, Name(cs));
      MkdirStat(store, faults, Name(cs));
      if !(m.0.Some? && m.0.value != ErrExist) {
        CopyEntriesFrame(m.1, faults, e, 0, cs);
        var r := CopyEntrySpec(store, faults, e, Name(cs));
        forall n | !Under(n, cs)
          ensures Same(store, r.1, n)
        {
          assert !Beneath(n, cs, e, 0);
        }
      }
  }

  /** Copying the listed entries from the `i`th on changes only names below
      `cs` by one of those entries' names. */
  lemma {:induction false} CopyEntriesFrame(store: Store, faults: Faults, d: Entry, i: nat, cs: seq<string>)
    requires d.DirEntry? && i <= |d.entries| && |cs| >= 1 && AllPlain(cs) && WellNamed(d)
    ensures var r := CopyEntriesSpec(store, faults, d, i, Name(cs));
      forall n :: !Beneath(n, cs, d, i) ==> Same(store, r.1, n)
    decreases d, 0, |d.entries| - i
  {
    if i < |d.entries| {
      var a := d.entries[i].0;
      JoinChild(cs, a);
      var c := CopyEntrySpec(store, faults, d.entries[i].1, Name(cs + [a]));
      CopyEntryFrame(store, faults, d.entries[i].1, cs + [a]);
      var r := CopyEntriesSpec(store, faults, d, i, Name(cs));
      if c.0.None? {
        CopyEntriesFrame(c.1, faults, d, i + 1, cs);
      }
      forall n | !Beneath(n, cs, d, i)
        ensures Same(store, r.1, n)
      {
        OutsideChild(n, cs, d, i);
      }
    }
  }

  /** On success, every entry of a tree copied to `cs` is at `cs` followed by
      its path in the tree. */
  lemma {:induction false} CopyTreeEntry(store: Store, faults: Faults, e: Entry, cs: seq<string>, p: seq<string>)
    requires |cs| >= 1 && AllPlain(cs) && WellNamed(e)
    ensures var r := CopyEntrySpec(store, faults, e, Name(cs));
      r.0.None? && Walk(e, p).Ok? ==> Copied(store, r.1, Walk(e, p).value, Name(cs + p))
    decreases e, 1, 0, 1
  {
    var r := CopyEntrySpec(store, faults, e, Name(cs));
    if r.0.None? && Walk(e, p).Ok? {
      match e
      case FileEntry(data) =>
        assert p == [] && cs + p == cs;
        CopyOpenedFile(store, faults, data, Name(cs));
      case DirEntry(entries) =>
        if p == [] {
          CopyTreeDirItself(store, faults, e, cs);
          assert cs + p == cs;
        } else {
          CopyTreeDirBelow(store, faults, e, cs, p);
        }
    }
  }

  /** A copied directory is a directory at its destination, unless a file
      already stood there. */
  lemma CopyTreeDirItself(store: Store, faults: Faults, e: Entry, cs: seq<string>)
    requires e.DirEntry? && |cs| >= 1 && AllPlain(cs)
    ensures var r := CopyEntrySpec(store, faults, e, Name(cs));
      r.0.None? ==> Copied(store, r.1, e, Name(cs))
  {
    var r := CopyEntrySpec(store, faults, e, Name(cs));
    if r.0.None? {
      NameSplit(cs);
      var m := MkdirOn(store, faults, Name(cs));
      MkdirStat(store, faults, Name(cs));
      assert r == CopyEntriesSpec(m.1, faults, e, 0, Name(cs));
      CopyEntriesGrows(m.1, faults, e, 0, Name(cs));
      if m.0.Some? {
        assert Name(cs) in store;
      }
    }
  }

  /** A non-empty path is its first element followed by the rest. */
  lemma HeadTail(cs: seq<string>, p: seq<string>)
    requires p != []
    ensures cs + [p[0]] + p[1..] == cs + p
  {
    assert p == [p[0]] + p[1..];
  }

  /** A path below a directory names something other than the directory. */
  lemma BelowApart(e: Entry, cs: seq<string>, p: seq<string>)
    requires p != [] && |cs| >= 1 && AllPlain(cs) && WellNamed(e) && Walk(e, p).Ok?
    ensures Name(cs + p) != Name(cs)
  {
    WalkPlain(e, p);
    assert AllPlain(cs + p);
    NameSplit(cs + p);
    NameSplit(cs);
  }

  /** What lies below a copied directory is copied below its destination. */
  lemma {:induction false} CopyTreeDirBelow(store: Store, faults: Faults, e: Entry, cs: seq<string>, p: seq<string>)
    requires e.DirEntry? && p != [] && |cs| >= 1 && AllPlain(cs) && WellNamed(e)
    ensures var r := CopyEntrySpec(store, faults, e, Name(cs));
      r.0.None? && Walk(e, p).Ok? ==> Copied(store, r.1, Walk(e, p).value, Name(cs + p))
    decreases e, 1, 0, 0
  {
    var r := CopyEntrySpec(store, faults, e, Name(cs));
    if r.0.None? && Walk(e, p).Ok? {
      var m := MkdirOn(store, faults, Name(cs));
      assert r == CopyEntriesSpec(m.1, faults, e, 0, Name(cs));
      var k := FindIndex(e.entries, p[0]);
      assert Walk(e, p) == Walk(e.entries[k].1, p[1..]);
      BelowApart(e, cs, p);
      MkdirOnly(store, faults, Name(cs), Name(cs + p));
      CopyTreeEntries(m.1, faults, e, 0, cs, k, p[1..]);
      HeadTail(cs, p);
      SameThenCopied(store, m.1, r.1, Walk(e, p).value, Name(cs + p));
    }
  }

  /** On success, the `j`th listed entry's tree is copied below `cs`. */
  lemma {:induction false} CopyTreeEntries(store: Store, faults: Faults, d: Entry, i: nat, cs: seq<string>,
                                           j: nat, p: seq<string>)
    requires d.DirEntry? && i <= j < |d.entries| && |cs| >= 1 && AllPlain(cs) && WellNamed(d)
    ensures CopyEntriesSpec(store, faults, d, i, Name(cs)).0.None? && Walk(d.entries[j].1, p).Ok? ==>
      Copied(store, CopyEntriesSpec(store, faults, d, i, Name(cs)).1, Walk(d.entries[j].1, p).value,
             Name(cs + [d.entries[j].0] + p))
    decreases d, 0, |d.entries| - i, 1
  {
    if j == i {
      CopyTreeHere(store, faults, d, i, cs, p);
    } else {
      CopyTreeLater(store, faults, d, i, cs, j, p);
    }
  }

  /** The name of a path below the `j`th listed entry begins with `cs` and
      that entry's name. */
  lemma ChildPath(d: Entry, j: nat, cs: seq<string>, p: seq<string>)
    requires d.DirEntry? && j < |d.entries| && |cs| >= 1 && AllPlain(cs) && WellNamed(d) && AllPlain(p)
    ensures var parts := Split(Name(cs + [d.entries[j].0] + p), '/');
      |cs| < |parts| && parts[..|cs|] == cs && parts[|cs|] == d.entries[j].0
  {
    var b := d.entries[j].0;
    assert AllPlain(cs + [b] + p);
    NameSplit(cs + [b] + p);
  }

  /** A name whose element after `cs` is `b` is not under a sibling `a`. */
  lemma SiblingApart(n: string, cs: seq<string>, a: string, b: string)
    requires var parts := Split(n, '/'); |cs| < |parts| && parts[..|cs|] == cs && parts[|cs|] == b
    requires a != b
    ensures !Under(n, cs + [a])
  {
    var parts := Split(n, '/');
    if |cs| + 1 <= |parts| {
      assert parts[..|cs| + 1][|cs|] == b;
    }
  }

  /** Copying an earlier entry leaves alone every name below a later one. */
  lemma LaterApart(store: Store, faults: Faults, d: Entry, i: nat, cs: seq<string>, j: nat, p: seq<string>)
    requires d.DirEntry? && i < j < |d.entries| && |cs| >= 1 && AllPlain(cs) && WellNamed(d)
    requires Walk(d.entries[j].1, p).Ok?
    ensures Same(store, CopyEntrySpec(store, faults, d.entries[i].1, Name(cs + [d.entries[i].0])).1,
                 Name(cs + [d.entries[j].0] + p))
  {
    var a, b := d.entries[i].0, d.entries[j].0;
    WalkPlain(d.entries[j].1, p);
    ChildPath(d, j, cs, p);
    CopyEntryFrame(store, faults, d.entries[i].1, cs + [a]);
    SiblingApart(Name(cs + [b] + p), cs, a, b);
  }

  /** The entry copied first is the one walked into: the rest of the
      listing leaves its name alone. */
  lemma {:induction false} CopyTreeHere(store: Store, faults: Faults, d: Entry, i: nat, cs: seq<string>, p: seq<string>)
    requires d.DirEntry? && i < |d.entries| && |cs| >= 1 && AllPlain(cs) && WellNamed(d)
    ensures CopyEntriesSpec(store, faults, d, i, Name(cs)).0.None? && Walk(d.entries[i].1, p).Ok? ==>
      Copied(store, CopyEntriesSpec(store, faults, d, i, Name(cs)).1, Walk(d.entries[i].1, p).value,
             Name(cs + [d.entries[i].0] + p))
    decreases d, 0, |d.entries| - i, 0
  {
    var r := CopyEntriesSpec(store, faults, d, i, Name(cs));
    var w := Walk(d.entries[i].1, p);
    var a := d.entries[i].0;
    if r.0.None? && w.Ok? {
      JoinChild(cs, a);
      var c := CopyEntrySpec(store, faults, d.entries[i].1, Name(cs + [a]));
      assert c.0.None? && r == CopyEntriesSpec(c.1, faults, d, i + 1, Name(cs));
      WalkPlain(d.entries[i].1, p);
      ChildPath(d, i, cs, p);
      var n := Name(cs + [a] + p);
      CopyTreeEntry(store, faults, d.entries[i].1, cs + [a], p);
      CopyEntriesFrame(c.1, faults, d, i + 1, cs);
      assert !Beneath(n, cs, d, i + 1);
      CopiedThenSame(store, c.1, r.1, w.value, n);
    }
  }

  /** An entry copied before the one walked into leaves its name alone. */
  lemma {:induction false} CopyTreeLater(store: Store, faults: Faults, d: Entry, i: nat, cs: seq<string>,
                                         j: nat, p: seq<string>)
    requires d.DirEntry? && i < j < |d.entries| && |cs| >= 1 && AllPlain(cs) && WellNamed(d)
    ensures CopyEntriesSpec(store, faults, d, i, Name(cs)).0.None? && Walk(d.entries[j].1, p).Ok? ==>
      Copied(store, CopyEntriesSpec(store, faults, d, i, Name(cs)).1, Walk(d.entries[j].1, p).value,
             Name(cs + [d.entries[j].0] + p))
    decreases d, 0, |d.entries| - i, 0
  {
    var r := CopyEntriesSpec(store, faults, d, i, Name(cs));
    var w := Walk(d.entries[j].1, p);
    var a := d.entries[i].0;
    var b := d.entries[j].0;
    var n := Name(cs + [b] + p);
    var c := CopyEntrySpec(store, faults, d.entries[i].1, Name(cs + [a]));
    if r.0.None? && w.Ok? {
      var rest := CopyEntriesSpec(c.1, faults, d, i + 1, Name(cs));
      assert c.0.None? && r == rest by {
        JoinChild(cs, a);
      }
      assert Copied(c.1, rest.1, w.value, n) by {
        CopyTreeEntries(c.1, faults, d, i + 1, cs, j, p);
      }
      assert Same(store, c.1, n) by {
        LaterApart(store, faults, d, i, cs, j, p);
      }
      SameThenCopied(store, c.1, r.1, w.value, n);
    }
  }

  /** `CopyRecursive` copies the tree: when it succeeds on a well-named
      source and a destination of plain elements, every file below the
      source is a file with the same bytes at the same path below the
      destination, and every directory is a directory there unless a file
      already stood in its place. */
  lemma CopyRecursiveTree(store: Store, faults: Faults, src: Entry, srcName: string, destName: string, p: seq<string>)
    requires WellNamed(src) && AllPlain(Split(destName, '/'))
    ensures var r := CopyRecursiveSpec(store, faults, src, srcName, destName);
      var o := Open(src, srcName);
      r.0.None? && o.Ok? && Walk(o.value, p).Ok? ==>
        Copied(store, r.1, Walk(o.value, p).value, JoinWith([destName] + p, '/'))
  {
    var o := Open(src, srcName);
    if o.Ok? {
      WalkPlain(src, if srcName == "." then [] else Split(srcName, '/'));
      var cs := Split(destName, '/');
      assert Name(cs) == destName;
      CopyTreeEntry(store, faults, o.value, cs, p);
      JoinWithPrefix(cs, p, '/');
    }
  }

  /** `CopyRecursive` changes nothing outside the destination: every name
      whose elements do not begin with the destination's is as it was. */
  lemma CopyRecursiveFrame(store: Store, faults: Faults, src: Entry, srcName: string, destName: string, n: string)
    requires WellNamed(src) && AllPlain(Split(destName, '/'))
    requires !Under(n, Split(destName, '/'))
    ensures Same(store, CopyRecursiveSpec(store, faults, src, srcName, destName).1, n)
  {
    var o := Open(src, srcName);
    if o.Ok? {
      WalkPlain(src, if srcName == "." then [] else Split(srcName, '/'));
      var cs := Split(destName, '/');
      assert Name(cs) == destName;
      CopyEntryFrame(store, faults, o.value, cs);
    }
  }

  // ---------------------------------------------------------------------
  // MkdirAll

  /** The names `MkdirAll` passes over. */
  predicate Skipped(cur: string) {
    cur == "" || cur == "." || cur == "/"
  }

  /** The name `MkdirAll` works on at step `i`: the first `i + 1` slash
      pieces joined, with the leading slash of an absolute name put back. */
  function Cur(name: string, i: nat): string
    requires i < |Split(name, '/')|
  {
    (if HasPrefix(name, "/") then "/" else "") + Join(Split(name, '/')[..i + 1])
  }

  /** The names `MkdirAll` works on, one per slash piece of `name`. */
  function Steps(name: string): seq<string> {
    seq(|Split(name, '/')|, i requires 0 <= i < |Split(name, '/')| => Cur(name, i))
  }

  /** `MkdirAll` from step `i` of `steps`: each name that is not skipped is
      looked up; a missing one is made, an existing directory is passed, and
      anything else stops with a `mkdir` path error. */
  function MkdirAllFrom(store: Store, faults: Faults, steps: seq<string>, i: nat): (Option<FsError>, Store)
    requires i <= |steps|
    decreases |steps| - i
  {
    if i == |steps| then (None, store)
    else
      var cur := steps[i];
      if Skipped(cur) then MkdirAllFrom(store, faults, steps, i + 1)
      else
        var fi := Stat(store, faults, cur);
        if fi == Err(ErrNotExist) then
          var m := MkdirOn(store, faults, cur);
          if m.0.Some? then (Some(PathError("mkdir", cur, m.0.value)), m.1)
          else MkdirAllFrom(m.1, faults, steps, i + 1)
        else if fi.Err? then (Some(PathError("mkdir", cur, fi.error)), store)
        else if !fi.value.isDir then (Some(PathError("mkdir", cur, ErrExist)), store)
        else MkdirAllFrom(store, faults, steps, i + 1)
  }

  /** `MkdirAll`. */
  function MkdirAllSpec(store: Store, faults: Faults, name: string): (Option<FsError>, Store) {
    MkdirAllFrom(store, faults, Steps(name), 0)
  }

  /** A step that is skipped or already a directory moves `MkdirAll` on. */
  lemma MkdirAllPasses(store: Store, faults: Faults, steps: seq<string>, i: nat)
    requires i < |steps|
    requires Skipped(steps[i]) || Stat(store, faults, steps[i]) == Ok(Info(true))
    ensures MkdirAllFrom(store, faults, steps, i) == MkdirAllFrom(store, faults, steps, i + 1)
  {
  }

  /** A missing step that `Mkdir` makes moves `MkdirAll` on from the new
      store. */
  lemma MkdirAllMakes(store: Store, faults: Faults, steps: seq<string>, i: nat)
    requires i < |steps| && !Skipped(steps[i]) && Stat(store, faults, steps[i]) == Err(ErrNotExist)
    requires MkdirOn(store, faults, steps[i]).0.None?
    ensures MkdirAllFrom(store, faults, steps, i) == MkdirAllFrom(MkdirOn(store, faults, steps[i]).1, faults, steps, i + 1)
  {
  }

  /** `MkdirAll` keeps every existing entry as it was, and everything it adds
      is a directory named by one of its steps. */
  lemma {:induction false} MkdirAllKeeps(store: Store, faults: Faults, steps: seq<string>, i: nat)
    requires i <= |steps|
    ensures var r := MkdirAllFrom(store, faults, steps, i);
      && (forall p :: p in store ==> p in r.1 && r.1[p] == store[p])
      && (forall p :: p in r.1 && p !in store ==> r.1[p] == Dir && exists j :: i <= j < |steps| && p == steps[j])
    decreases |steps| - i
  {
    if i < |steps| {
      var cur := steps[i];
      if Skipped(cur) {
        MkdirAllKeeps(store, faults, steps, i + 1);
      } else if Stat(store, faults, cur) == Err(ErrNotExist) {
        var m := MkdirOn(store, faults, cur);
        if m.0.None? {
          MkdirAllKeeps(m.1, faults, steps, i + 1);
        }
      } else if Stat(store, faults, cur).Ok? && Stat(store, faults, cur).value.isDir {
        MkdirAllKeeps(store, faults, steps, i + 1);
      }
    }
  }

  /** When `MkdirAll` succeeds, every step it did not skip is a directory. */
  lemma {:induction false} MkdirAllMade(store: Store, faults: Faults, steps: seq<string>, i: nat)
    requires i <= |steps|
    ensures var r := MkdirAllFrom(store, faults, steps, i);
      r.0.None? ==> forall j :: i <= j < |steps| && !Skipped(steps[j]) ==> At(r.1, steps[j]) == Some(Dir)
    decreases |steps| - i
  {
    if i < |steps| {
      var cur := steps[i];
      if Skipped(cur) {
        MkdirAllMade(store, faults, steps, i + 1);
      } else if Stat(store, faults, cur) == Err(ErrNotExist) {
        var m := MkdirOn(store, faults, cur);
        if m.0.None? {
          MkdirAllMade(m.1, faults, steps, i + 1);
          MkdirAllKeeps(m.1, faults, steps, i + 1);
          assert cur in m.1 && m.1[cur] == Dir;
        }
      } else if Stat(store, faults, cur).Ok? && Stat(store, faults, cur).value.isDir {
        MkdirAllMade(store, faults, steps, i + 1);
        MkdirAllKeeps(store, faults, steps, i + 1);
        assert IsTop(cur) || cur in store;
      }
    }
  }

  /** Every error of `MkdirAll` is a `mkdir` path error naming one of its
      steps; an "exists" error names a file that was there before. */
  lemma {:induction false} MkdirAllError(store: Store, faults: Faults, steps: seq<string>, i: nat)
    requires i <= |steps|
    ensures var r := MkdirAllFrom(store, faults, steps, i);
      r.0.Some? ==>
        && r.0.value.PathError? && r.0.value.op == "mkdir"
        && (exists k :: i <= k < |steps| && r.0.value.path == steps[k] && !Skipped(steps[k]))
        && (r.0.value.err == ErrExist ==> At(store, r.0.value.path).Some? && At(store, r.0.value.path).value.File?)
    decreases |steps| - i
  {
    if i < |steps| {
      var cur := steps[i];
      if Skipped(cur) {
        MkdirAllError(store, faults, steps, i + 1);
      } else if Stat(store, faults, cur) == Err(ErrNotExist) {
        var m := MkdirOn(store, faults, cur);
        if m.0.None? {
          MkdirAllError(m.1, faults, steps, i + 1);
        }
      } else if Stat(store, faults, cur).Ok? && Stat(store, faults, cur).value.isDir {
        MkdirAllError(store, faults, steps, i + 1);
      }
    }
  }

  /** When the steps before `k` are all directories already, a file at step
      `k` stops `MkdirAll` there with an "exists" error, changing nothing. */
  lemma {:induction false} MkdirAllStopsAtFile(store: Store, faults: Faults, steps: seq<string>, i: nat, k: nat)
    requires i <= k < |steps|
    requires forall j :: i <= j < k && !Skipped(steps[j]) ==> steps[j] !in faults.locked && At(store, steps[j]) == Some(Dir)
    requires !Skipped(steps[k]) && steps[k] !in faults.locked
    requires At(store, steps[k]).Some? && At(store, steps[k]).value.File?
    ensures MkdirAllFrom(store, faults, steps, i) == (Some(PathError("mkdir", steps[k], ErrExist)), store)
    decreases k - i
  {
    if i < k {
      MkdirAllStopsAtFile(store, faults, steps, i + 1, k);
    }
  }

  /** The steps of an absolute name all start with a slash. */
  lemma StepsRooted(name: string, j: nat)
    requires HasPrefix(name, "/") && j < |Steps(name)|
    ensures HasPrefix(Steps(name)[j], "/")
  {
  }

  // ---------------------------------------------------------------------
  // The writable filesystem as an object

  /** An in-memory read-write filesystem. */
  class MemFS {
    var nodes: Store
    const faults: Faults

    /** An empty filesystem with the given failures. */
    constructor (faults: Faults)
      ensures nodes == map[] && this.faults == faults
    {
      nodes := map[];
      this.faults := faults;
    }

    /** `Mkdir`. */
    method Mkdir(name: string) returns (err: Option<FsError>)
      modifies this
      ensures (err, nodes) == MkdirOn(old(nodes), faults, name)
    {
      var m := MkdirOn(nodes, faults, name);
      err, nodes := m.0, m.1;
    }

    /** `OpenFile`. */
    method OpenFile(name: string, flags: bv64) returns (h: Result<Handle, FsError>)
      modifies this
      ensures (h, nodes) == OpenOn(old(nodes), faults, name, flags)
    {
      var o := OpenOn(nodes, faults, name, flags);
      h, nodes := o.0, o.1;
    }

    /** `Create`, with the flags of `os.Create`. */
    method Create(name: string) returns (h: Result<Handle, FsError>)
      modifies this
      ensures (h, nodes) == OpenOn(old(nodes), faults, name, CreateFlags)
    {
      h := OpenFile(name, CreateFlags);
    }

    /** `Write` on an open file. */
    method Write(h: Handle, data: Bytes) returns (err: Option<FsError>)
      modifies this
      ensures (err, nodes) == WriteOn(old(nodes), faults, h, data)
    {
      var w := WriteOn(nodes, faults, h, data);
      err, nodes := w.0, w.1;
    }

    /** `Close` on an open file. */
    method Close(h: Handle) returns (err: Option<FsError>)
      ensures err == CloseOn(faults, h)
    {
      err := CloseOn(faults, h);
    }

    /** `WriteFile`. */
    method WriteFile(name: string, data: Bytes) returns (err: Option<FsError>)
      modifies this
      ensures (err, nodes) == WriteFileSpec(old(nodes), faults, name, data)
    {
      var h := OpenFile(name, WriteFlags);
      if h.Err? {
        return Some(h.error);
      }
      err := Write(h.value, data);
      var closeErr := Close(h.value);
      if err.None? {
        err := closeErr;
      }
    }

    /** The body of `Copy` once the source is open. */
    method CopyFrom(e: Entry, destName: string) returns (err: Option<FsError>)
      modifies this
      ensures (err, nodes) == CopyOpened(old(nodes), faults, e, destName)
    {
      var h := Create(destName);
      if h.Err? {
        return Some(h.error);
      }
      match e
      case FileEntry(data) =>
        err := None;
        if data != [] {
          err := Write(h.value, data);
        }
      case DirEntry(_) =>
        err := Some(ErrIsDir);
      case DeniedEntry =>
        // unreachable from Copy and CopyEntry; kept to match CopyOpened
        err := Some(ErrPermission);
      // the deferred close's error is dropped
      var closeErr := Close(h.value);
    }

    /** `Copy` from the filesystem `src` into this one. */
    method Copy(src: Entry, srcName: string, destName: string) returns (err: Option<FsError>)
      modifies this
      ensures (err, nodes) == CopySpec(old(nodes), faults, src, srcName, destName)
    {
      var r := Open(src, srcName);
      if r.Err? {
        return Some(r.error);
      }
      err := CopyFrom(r.value, destName);
    }

    /** The recursive step of `CopyRecursive` on an opened entry. */
    method CopyEntry(e: Entry, destName: string) returns (err: Option<FsError>)
      modifies this
      ensures (err, nodes) == CopyEntrySpec(old(nodes), faults, e, destName)
      decreases e
    {
      match e
      case DeniedEntry =>
        err := Some(ErrPermission);
      case FileEntry(_) =>
        err := CopyFrom(e, destName);
      case DirEntry(entries) =>
        err := Mkdir(destName);
        if err.Some? && err.value != ErrExist {
          return;
        }
        err := None;
        var i := 0;
        while i < |entries|
          invariant 0 <= i <= |entries|
          invariant CopyEntriesSpec(nodes, faults, e, i, destName) == CopyEntrySpec(old(nodes), faults, e, destName)
          invariant err == None
        {
          err := CopyEntry(entries[i].1, Join([destName, entries[i].0]));
          if err.Some? {
            return;
          }
          i := i + 1;
        }
    }

    /** `CopyRecursive` from the filesystem `src` into this one. */
    method CopyRecursive(src: Entry, srcName: string, destName: string) returns (err: Option<FsError>)
      modifies this
      ensures (err, nodes) == CopyRecursiveSpec(old(nodes), faults, src, srcName, destName)
    {
      var r := Open(src, srcName);
      if r.Err? {
        return Some(r.error);
      }
      if !r.value.DirEntry? {
        err := Copy(src, srcName, destName);
        return;
      }
      err := CopyEntry(r.value, destName);
    }

    /** `MkdirAll`. */
    method MkdirAll(name: string) returns (err: Option<FsError>)
      modifies this
      ensures (err, nodes) == MkdirAllSpec(old(nodes), faults, name)
    {
      // the name of step i is the leading slash, if any, and the first
      // i + 1 slash pieces joined
      var steps := Steps(name);
      var i := 0;
      while i < |steps|
        invariant 0 <= i <= |steps|
        invariant MkdirAllFrom(nodes, faults, steps, i) == MkdirAllFrom(old(nodes), faults, steps, 0)
      {
        var cur := steps[i];
        if !Skipped(cur) {
          var fi := Stat(nodes, faults, cur);
          if fi == Err(ErrNotExist) {
            ghost var before := nodes;
            var e := Mkdir(cur);
            if e.Some? {
              return Some(PathError("mkdir", cur, e.value));
            }
            MkdirAllMakes(before, faults, steps, i);
          } else if fi.Err? {
            return Some(PathError("mkdir", cur, fi.error));
          } else if !fi.value.isDir {
            return Some(PathError("mkdir", cur, ErrExist));
          } else {
            MkdirAllPasses(nodes, faults, steps, i);
          }
        } else {
          MkdirAllPasses(nodes, faults, steps, i);
        }
        i := i + 1;
      }
      return None;
    }
  }
}
