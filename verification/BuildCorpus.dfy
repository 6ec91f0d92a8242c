/**
 The build-corpus handle over a small kernel: descriptors, mappings and segment names are
 released once or handed off once, whatever fails on the way.

 The kernel's calls demand live resources, so a double release would not verify.
 */
module BuildCorpus {
  import opened Bytes
  import opened Codec

  const NAME_SIZE: nat := 64

  datatype Errno = ENOSYS | EPERM | OtherError
  datatype Mapping = Mapping(object: nat, bytes: nat)

  /** Taking out what is not there, or what was just put in. */
  lemma NotThere<K, V>(m: map<K, V>, k: K)
    requires k !in m
    ensures m - {k} == m
  {}

  lemma PutBack<K, V>(m: map<K, V>, k: K, v: V)
    requires k !in m
    ensures m[k := v] - {k} == m
  {}

  class Kernel {
    var fds: map<int, nat>
    var maps: map<nat, Mapping>
    var names: map<string, nat>
    var objects: map<nat, seq<Byte>>
    var nextFd: nat
    var nextAddress: nat
    var nextObject: nat
    /** How often each of the two ways to make an object has been tried. */
    var memfdCalls: nat
    var shmCalls: nat

    ghost predicate Valid()
      reads this
    {
      && nextAddress > 0
      && (forall fd | fd in fds :: 0 <= fd < nextFd && fds[fd] in objects)
      && (forall a | a in maps :: 0 < a < nextAddress)
      && (forall o | o in objects :: o < nextObject)
      && "" !in names && (forall n | n in names :: names[n] in objects)
    }

    constructor ()
      ensures Valid() && fds == map[] && maps == map[] && names == map[]
    {
      fds, maps, names, objects := map[], map[], map[], map[];
      nextFd, nextAddress, nextObject := 0, 1, 0;
      memfdCalls, shmCalls := 0, 0;
    }

    /** An anonymous object, or -1. */
    method MemfdCreate() returns (fd: int, errno: Errno)
      requires Valid()
      modifies this
      ensures Valid() && maps == old(maps) && names == old(names)
      ensures memfdCalls == old(memfdCalls) + 1 && shmCalls == old(shmCalls)
      ensures fd == -1 ==> fds == old(fds) && objects == old(objects)
      ensures fd != -1 ==> fd >= 0 && fd !in old(fds) && fd in fds && fds == old(fds)[fd := fds[fd]] && fds[fd] !in old(objects)
      ensures fd != -1 ==> objects == old(objects)[fds[fd] := []]
    {
      memfdCalls := memfdCalls + 1;
      var fails: bool := *;
      errno := *;
      if fails { return -1, errno; }
      fd := nextFd;
      fds, objects := fds[nextFd := nextObject], objects[nextObject := []];
      nextFd, nextObject := nextFd + 1, nextObject + 1;
    }

    /** A named object that must not exist yet, or -1. */
    method ShmOpen(name: string) returns (fd: int)
      requires Valid() && name != ""
      modifies this
      ensures Valid() && maps == old(maps)
      ensures memfdCalls == old(memfdCalls) && shmCalls == old(shmCalls) + 1
      ensures fd == -1 ==> fds == old(fds) && objects == old(objects) && names == old(names)
      ensures fd != -1 ==> fd >= 0 && fd !in old(fds) && fd in fds && fds == old(fds)[fd := fds[fd]] && fds[fd] !in old(objects)
      ensures fd != -1 ==> objects == old(objects)[fds[fd] := []] && name !in old(names) && names == old(names)[name := fds[fd]]
    {
      shmCalls := shmCalls + 1;
      var fails: bool := *;
      if fails || name in names { return -1; }
      fd := nextFd;
      fds, objects, names := fds[nextFd := nextObject], objects[nextObject := []], names[name := nextObject];
      nextFd, nextObject := nextFd + 1, nextObject + 1;
    }

    method Ftruncate(fd: int, size: nat) returns (ok: bool)
      requires Valid() && fd in fds
      modifies this`objects
      ensures Valid()
      ensures objects == if ok then old(objects)[fds[fd] := Resized(old(objects)[fds[fd]], size)] else old(objects)
    {
      ok := *;
      if ok { objects := objects[fds[fd] := Resized(objects[fds[fd]], size)]; }
    }

    /** A new mapping, or 0. */
    method Mmap(fd: int, size: nat) returns (address: nat)
      requires Valid() && fd in fds
      modifies this`maps, this`nextAddress
      ensures Valid()
      ensures address == 0 ==> maps == old(maps)
      ensures address != 0 ==> address !in old(maps) && maps == old(maps)[address := Mapping(fds[fd], size)]
    {
      var fails: bool := *;
      if fails || size == 0 { return 0; }
      address := nextAddress;
      maps, nextAddress := maps[nextAddress := Mapping(fds[fd], size)], nextAddress + 1;
    }

    /** The whole mapping, as it was made. */
    method Munmap(address: nat, size: nat)
      requires Valid() && address in maps && maps[address].bytes == size
      modifies this`maps
      ensures Valid() && maps == old(maps) - {address}
    {
      maps := maps - {address};
    }

    method Close(fd: int)
      requires Valid() && fd in fds
      modifies this`fds
      ensures Valid() && fds == old(fds) - {fd}
    {
      fds := fds - {fd};
    }

    method ShmUnlink(name: string)
      requires Valid() && name in names
      modifies this`names
      ensures Valid() && names == old(names) - {name}
    {
      names := names - {name};
    }
  }

  /** Every object there was is still there, with the same bytes. */
  ghost predicate Kept(before: map<nat, seq<Byte>>, after: map<nat, seq<Byte>>) {
    forall o | o in before :: o in after && after[o] == before[o]
  }

  lemma SameObjects(objects: map<nat, seq<Byte>>)
    ensures Kept(objects, objects)
  {}

  datatype Kind = None | Memfd | Shm | Heap

  /** Process-wide: the tier tests force, and what probing memfd has shown. */
  class Tiers {
    var forced: Kind
    var memfdProbed: bool
    var memfdOk: bool

    constructor (forced: Kind)
      ensures this.forced == forced && !memfdProbed && !memfdOk
    {
      this.forced, memfdProbed, memfdOk := forced, false, false;
    }
  }

  class Corpus {
    var kind: Kind
    var fd: int
    var shmName: string
    var base: nat
    var mapBytes: nat

    constructor ()
      ensures Empty()
    {
      kind, fd, shmName, base, mapBytes := None, -1, "", 0, 0;
    }

    ghost predicate Empty()
      reads this
    {
      fd == -1 && shmName == "" && base == 0 && mapBytes == 0 && (kind == None || kind == Heap)
    }

    /** The handle's resources are live, and are what its kind says. */
    ghost predicate Owns(k: Kernel)
      reads this, k
    {
      match kind
      case None => Empty()
      case Heap => Empty()
      case Memfd => OwnsObject(k) && shmName == ""
      case Shm => OwnsObject(k) && 0 < |shmName| < NAME_SIZE && shmName in k.names && k.names[shmName] == k.fds[fd]
    }

    ghost predicate OwnsObject(k: Kernel)
      reads this, k
    {
      && fd >= 0 && fd in k.fds && k.fds[fd] in k.objects
      && (base == 0 ==> mapBytes == 0)
      && (base != 0 ==> base in k.maps && k.maps[base] == Mapping(k.fds[fd], mapBytes) && |k.objects[k.fds[fd]]| == mapBytes)
    }

    /** Everything in the process that is not this handle's. */
    ghost function Others(k: Kernel): (map<int, nat>, map<nat, Mapping>, map<string, nat>)
      reads this, k
    {
      (k.fds - {fd}, k.maps - {base}, k.names - {shmName})
    }

    /** The kernel object behind the handle, or -1. */
    ghost function Object(k: Kernel): int
      requires Owns(k)
      reads this, k
    {
      if fd < 0 then -1 else k.fds[fd]
    }

    /** An empty handle has no part in the process. */
    lemma EmptyOthers(k: Kernel)
      requires k.Valid() && Empty()
      ensures Others(k) == (k.fds, k.maps, k.names)
    {
      NotThere(k.fds, fd);
      NotThere(k.maps, base);
      NotThere(k.names, shmName);
    }

    /** Sizes a new object and maps it; 0 if either step fails. */
    static method MapObject(k: Kernel, f: int, bytes: nat) returns (mem: nat)
      requires k.Valid() && f in k.fds
      modifies k`objects, k`maps, k`nextAddress
      ensures k.Valid() && (mem == 0 ==> k.maps == old(k.maps))
      ensures mem != 0 ==> mem !in old(k.maps) && k.maps == old(k.maps)[mem := Mapping(k.fds[f], bytes)]
      ensures mem != 0 ==> |k.objects[k.fds[f]]| == bytes
      ensures forall o | o in old(k.objects) && o != k.fds[f] :: o in k.objects && k.objects[o] == old(k.objects)[o]
      ensures k.fds[f] in k.objects
    {
      var cut := k.Ftruncate(f, bytes);
      if !cut { return 0; }
      mem := k.Mmap(f, bytes);
    }

    method OpenMemfd(k: Kernel, bytes: nat) returns (ok: bool, errno: Errno)
      requires k.Valid() && Empty()
      modifies this, k
      ensures k.Valid() && Owns(k) && Others(k) == (old(k.fds), old(k.maps), old(k.names))
      ensures Kept(old(k.objects), k.objects) && Object(k) !in old(k.objects)
      ensures k.memfdCalls == old(k.memfdCalls) + 1 && k.shmCalls == old(k.shmCalls)
      ensures !ok ==> k.fds == old(k.fds) && k.maps == old(k.maps) && k.names == old(k.names)
      ensures if ok then kind == Memfd && base != 0 && mapBytes == bytes else Empty() && kind == old(kind)
    {
      EmptyOthers(k);
      var f: int;
      f, errno := k.MemfdCreate();
      if f < 0 { return false, errno; }
      PutBack(old(k.fds), f, k.fds[f]);
      var mem := MapObject(k, f, bytes);
      if mem == 0 {
        k.Close(f);
        errno := *;
        return false, errno;
      }
      PutBack(old(k.maps), mem, k.maps[mem]);
      kind, fd, base, mapBytes := Memfd, f, mem, bytes;
      ok := true;
    }

    /** A new segment, sized and mapped; -1, and nothing left of it, if a step fails. */
    static method NewSegment(k: Kernel, bytes: nat, name: string) returns (f: int, mem: nat)
      requires k.Valid() && name != ""
      modifies k
      ensures k.Valid() && Kept(old(k.objects), k.objects)
      ensures k.memfdCalls == old(k.memfdCalls) && k.shmCalls == old(k.shmCalls) + 1
      ensures f < 0 ==> k.fds == old(k.fds) && k.maps == old(k.maps) && k.names == old(k.names)
      ensures f >= 0 ==>
                && f !in old(k.fds) && f in k.fds && k.fds == old(k.fds)[f := k.fds[f]]
                && mem != 0 && mem !in old(k.maps) && k.maps == old(k.maps)[mem := Mapping(k.fds[f], bytes)]
                && name !in old(k.names) && k.names == old(k.names)[name := k.fds[f]]
                && k.fds[f] !in old(k.objects) && k.fds[f] in k.objects && |k.objects[k.fds[f]]| == bytes
    {
      mem := 0;
      f := k.ShmOpen(name);
      if f < 0 { return; }
      PutBack(old(k.fds), f, k.fds[f]);
      PutBack(old(k.names), name, k.names[name]);
      mem := MapObject(k, f, bytes);
      if mem == 0 {
        k.ShmUnlink(name);
        k.Close(f);
        f := -1;
      }
    }

    /** name is what the generator built; empty if its random source failed. */
    method OpenShm(k: Kernel, bytes: nat, name: string) returns (ok: bool)
      requires k.Valid() && Empty() && |name| < NAME_SIZE
      modifies this, k
      ensures k.Valid() && Owns(k) && Others(k) == (old(k.fds), old(k.maps), old(k.names))
      ensures Kept(old(k.objects), k.objects) && Object(k) !in old(k.objects)
      ensures k.memfdCalls == old(k.memfdCalls) && k.shmCalls == old(k.shmCalls) + if name == "" then 0 else 1
      ensures !ok ==> k.fds == old(k.fds) && k.maps == old(k.maps) && k.names == old(k.names)
      ensures if ok then kind == Shm && shmName == name && base != 0 && mapBytes == bytes else Empty() && kind == old(kind)
    {
      hide Kept;
      EmptyOthers(k);
      SameObjects(k.objects);
      if name == "" { return false; }
      var f, mem := NewSegment(k, bytes, name);
      if f < 0 { return false; }
      PutBack(old(k.fds), f, k.fds[f]);
      PutBack(old(k.names), name, k.names[name]);
      PutBack(old(k.maps), mem, k.maps[mem]);
      kind, fd, base, mapBytes, shmName := Shm, f, mem, bytes, name;
      ok := true;
    }

    /**
     Whatever is new in the process belongs to the handle, and a failed open leaves nothing.
     The handle's previous fields are overwritten.
     */
    method Open(k: Kernel, t: Tiers, bytes: nat, name: string) returns (status: int)
      requires k.Valid() && |name| < NAME_SIZE
      modifies this, k, t
      ensures k.Valid() && Owns(k) && Others(k) == (old(k.fds), old(k.maps), old(k.names))
      ensures Kept(old(k.objects), k.objects) && Object(k) !in old(k.objects)
      ensures t.forced == old(t.forced)
      ensures status == if kind == None then -1 else 0
      ensures t.forced != None ==> kind == t.forced || kind == None
      ensures t.forced == None ==> kind != None
      ensures t.forced == None ==>
                && k.memfdCalls == old(k.memfdCalls) + (if old(t.memfdProbed && !t.memfdOk) then 0 else 1)
                && k.shmCalls == old(k.shmCalls) + (if kind == Memfd || name == "" then 0 else 1)
      ensures old(t.memfdProbed && !t.memfdOk) ==> t.memfdProbed && !t.memfdOk && (t.forced == None ==> kind != Memfd)
    {
      hide Kernel.Valid;
      fd, shmName, base, mapBytes := -1, "", 0, 0;
      kind := None;
      var ok: bool;
      var errno: Errno;
      if t.forced == Memfd {
        ok, errno := OpenMemfd(k, bytes);
        return if ok then 0 else -1;
      }
      if t.forced == Shm {
        ok := OpenShm(k, bytes, name);
        return if ok then 0 else -1;
      }
      if t.forced == Heap {
        kind := Heap;
        EmptyOthers(k);
        return 0;
      }
      OpenAuto(k, t, bytes, name);
      return 0;
    }

    /** memfd unless it was refused before, else a named segment, else the caller's heap. */
    method OpenAuto(k: Kernel, t: Tiers, bytes: nat, name: string)
      requires k.Valid() && Empty() && kind == None && |name| < NAME_SIZE
      modifies this, k, t
      ensures k.Valid() && Owns(k) && Others(k) == (old(k.fds), old(k.maps), old(k.names))
      ensures Kept(old(k.objects), k.objects) && Object(k) !in old(k.objects)
      ensures t.forced == old(t.forced) && kind != None
      ensures k.memfdCalls == old(k.memfdCalls) + if old(t.memfdProbed && !t.memfdOk) then 0 else 1
      ensures k.shmCalls == old(k.shmCalls) + if kind == Memfd || name == "" then 0 else 1
      ensures old(t.memfdProbed && !t.memfdOk) ==> t.memfdProbed && !t.memfdOk && kind != Memfd
    {
      hide Kernel.Valid;
      var ok: bool;
      var errno: Errno;
      if !t.memfdProbed || t.memfdOk {
        ok, errno := OpenMemfd(k, bytes);
        if ok {
          t.memfdProbed, t.memfdOk := true, true;
          return;
        }
        if errno == ENOSYS || errno == EPERM {
          t.memfdProbed, t.memfdOk := true, false;
        }
      }
      ok := OpenShm(k, bytes, name);
      if ok { return; }
      kind, fd, base, mapBytes := Heap, -1, 0, 0;
      EmptyOthers(k);
    }

    /** The bytes behind the handle. */
    ghost function Content(k: Kernel): seq<Byte>
      requires Owns(k)
      reads this, k
    {
      if fd < 0 then [] else k.objects[k.fds[fd]]
    }

    /**
     On success the handle maps new_bytes bytes, the old ones first; on failure it still owns
     its object, whose bytes are the old ones, cut or extended at most at new_bytes.
     */
    method Resize(k: Kernel, newBytes: nat) returns (status: int)
      requires k.Valid() && Owns(k)
      modifies this`base, this`mapBytes, k`maps, k`objects, k`nextAddress
      ensures k.Valid() && Owns(k) && Others(k) == old(Others(k))
      ensures Object(k) == old(Object(k)) && kind == old(kind) && shmName == old(shmName)
      ensures forall o: nat | o in old(k.objects) && o != Object(k) :: o in k.objects && k.objects[o] == old(k.objects)[o]
      ensures Content(k) == old(Content(k)) || Content(k) == Resized(old(Content(k)), newBytes)
      ensures status == 0 || status == -1
      ensures status == 0 && fd >= 0 ==> mapBytes == newBytes && (newBytes != 0 ==> base != 0 && |Content(k)| == newBytes)
      ensures status == -1 ==> base == 0 && mapBytes == 0
    {
      if kind == Heap || kind == None { return 0; }
      if newBytes == mapBytes { return 0; }
      if base != 0 {
        k.Munmap(base, mapBytes);
        base, mapBytes := 0, 0;
      }
      NotThere(k.maps, 0);
      var cut := k.Ftruncate(fd, newBytes);
      if !cut { return -1; }
      var mem := k.Mmap(fd, newBytes);
      if mem == 0 { return -1; }
      PutBack(old(k.maps) - {old(base)}, mem, k.maps[mem]);
      base, mapBytes := mem, newBytes;
      status := 0;
    }

    /** Everything the handle owned is gone, everything else stays; closing again changes nothing. */
    method Close(k: Kernel)
      requires k.Valid() && Owns(k)
      modifies this, k
      ensures k.Valid() && Empty() && kind == None && (k.fds, k.maps, k.names) == old(Others(k))
      ensures k.objects == old(k.objects)
    {
      if base == 0 { NotThere(k.maps, base); }
      if shmName == "" { NotThere(k.names, shmName); }
      if fd < 0 { NotThere(k.fds, fd); }
      if base != 0 {
        k.Munmap(base, mapBytes);
        base := 0;
      }
      if kind == Shm && shmName != "" {
        k.ShmUnlink(shmName);
        shmName := "";
      }
      if fd >= 0 {
        k.Close(fd);
        fd := -1;
      }
      mapBytes := 0;
      kind := None;
    }

    /**
     A named segment stays linked, and the caller gets as much of its name as fits before the
     terminator; a missing or empty buffer, or any other kind, means a close.
     */
    method Detach(k: Kernel, nameLen: nat) returns (nameOut: string)
      requires k.Valid() && Owns(k)
      modifies this, k
      ensures k.Valid() && Empty() && kind == None
      ensures k.fds == old(Others(k)).0 && k.maps == old(Others(k)).1 && k.objects == old(k.objects)
      ensures if old(kind == Shm) && nameLen > 0
              then k.names == old(k.names) && nameOut == Cut(old(shmName), nameLen)
              else k.names == old(Others(k)).2 && nameOut == ""
    {
      nameOut := "";
      if kind == Shm && shmName != "" && nameLen > 0 {
        nameOut := Cut(shmName, nameLen);
        if base == 0 { NotThere(k.maps, base); }
        if base != 0 {
          k.Munmap(base, mapBytes);
          base := 0;
        }
        if fd >= 0 {
          k.Close(fd);
          fd := -1;
        }
        shmName := "";
        mapBytes := 0;
        kind := None;
        return;
      }
      Close(k);
    }
  }

  /** strncpy of at most size - 1 characters, then the terminator. */
  function Cut(s: string, size: nat): (r: string)
    requires size > 0
    ensures r <= s && |r| < size && (|r| < size - 1 ==> r == s)
  {
    if |s| < size then s else s[..size - 1]
  }

  // ---- sessions ------------------------------------------------------------------------------------------

  /** What a worker does with its handle; it opens only an empty one. */
  datatype Op = OpenOp(bytes: nat, name: string) | ResizeOp(bytes: nat) | DetachOp(nameLen: nat) | CloseOp

  predicate ValidOps(ops: seq<Op>) {
    forall i | 0 <= i < |ops| && ops[i].OpenOp? :: |ops[i].name| < NAME_SIZE
  }

  /** A hand-off: the segment left linked, its object and bytes, the caller's buffer and what it was told. */
  datatype Handed = Handed(segment: string, inode: nat, bytes: seq<Byte>, nameLen: nat, told: string)

  predicate ValidHanded(h: Handed) {
    0 < |h.segment| < NAME_SIZE && h.nameLen > 0 && h.told == Cut(h.segment, h.nameLen)
  }

  /** The segment is linked to its object, and the object has the bytes it had when it was handed off. */
  ghost predicate StillThere(h: Handed, names: map<string, nat>, objects: map<nat, seq<Byte>>) {
    && h.segment in names && names[h.segment] == h.inode
    && h.inode in objects && objects[h.inode] == h.bytes
  }

  /** The names linked before, to the objects they had, and each segment handed off, once, with its bytes. */
  ghost predicate LinkedAfter(names: map<string, nat>, objects: map<nat, seq<Byte>>, before: map<string, nat>, handed: seq<Handed>) {
    && names.Keys == before.Keys + (set i | 0 <= i < |handed| :: handed[i].segment)
    && (forall n | n in before :: n in names && names[n] == before[n])
    && (forall i | 0 <= i < |handed| ::
          ValidHanded(handed[i]) && handed[i].segment !in before && StillThere(handed[i], names, objects))
    && (forall i, j | 0 <= i < j < |handed| :: handed[i].segment != handed[j].segment)
  }

  lemma HandOff(names: map<string, nat>, objects: map<nat, seq<Byte>>, before: map<string, nat>, handed: seq<Handed>,
                after: map<string, nat>, h: Handed)
    requires LinkedAfter(names, objects, before, handed) && ValidHanded(h)
    requires h.segment !in names && after == names[h.segment := h.inode]
    requires h.inode in objects && objects[h.inode] == h.bytes
    ensures LinkedAfter(after, objects, before, handed + [h])
  {
    hide ValidHanded, Cut;
    var more := handed + [h];
    assert more[|handed|] == h;
    assert forall i | 0 <= i < |handed| :: more[i] == handed[i] && handed[i].segment in names;
    NamesGrow(names, before, handed, after, h);
  }

  lemma NamesGrow(names: map<string, nat>, before: map<string, nat>, handed: seq<Handed>, after: map<string, nat>, h: Handed)
    requires names.Keys == before.Keys + set i | 0 <= i < |handed| :: handed[i].segment
    requires after == names[h.segment := h.inode]
    ensures after.Keys == before.Keys + set i | 0 <= i < |handed + [h]| :: (handed + [h])[i].segment
  {
    var more := handed + [h];
    assert forall i | 0 <= i < |handed| :: more[i] == handed[i];
    assert more[|handed|] == h;
    forall n ensures n in after.Keys <==> n in before.Keys + (set i | 0 <= i < |more| :: more[i].segment) {
      if n != h.segment && n in names && n !in before {
        var i :| 0 <= i < |handed| && handed[i].segment == n;
        assert more[i].segment == n;
      }
    }
  }

  /** The objects a session must leave alone: all but the handle's own. */
  ghost predicate OthersKept(before: map<nat, seq<Byte>>, after: map<nat, seq<Byte>>, own: int) {
    forall o: nat | o in before && o != own :: o in after && after[o] == before[o]
  }

  /** One operation, with what a hand-off leaves behind. */
  method Perform(c: Corpus, k: Kernel, t: Tiers, op: Op) returns (handed: seq<Handed>)
    requires k.Valid() && c.Owns(k) && (op.OpenOp? ==> |op.name| < NAME_SIZE)
    modifies c, k, t
    ensures k.Valid() && c.Owns(k)
    ensures OthersKept(old(k.objects), k.objects, old(c.Object(k)))
    ensures c.Object(k) == -1 || c.Object(k) == old(c.Object(k)) || c.Object(k) !in old(k.objects)
    ensures c.Others(k).0 == old(c.Others(k)).0 && c.Others(k).1 == old(c.Others(k)).1
    ensures handed == [] ==> c.Others(k).2 == old(c.Others(k)).2
    ensures handed != [] ==>
              && |handed| == 1 && ValidHanded(handed[0]) && op == DetachOp(handed[0].nameLen)
              && handed[0].inode == old(c.Object(k)) && handed[0].bytes == old(c.Content(k))
              && c.Object(k) == -1 && handed[0].inode in k.objects && k.objects[handed[0].inode] == handed[0].bytes
              && handed[0].segment !in old(c.Others(k)).2
              && c.Others(k).2 == old(c.Others(k)).2[handed[0].segment := handed[0].inode]
  {
    handed := [];
    match op {
      case OpenOp(bytes, name) =>
        if c.kind == None || c.kind == Heap {
          c.EmptyOthers(k);
          var status := c.Open(k, t, bytes, name);
        }
      case ResizeOp(bytes) =>
        var status := c.Resize(k, bytes);
      case CloseOp =>
        c.Close(k);
        c.EmptyOthers(k);
      case DetachOp(nameLen) =>
        var named, segment := c.kind == Shm, c.shmName;
        var inode, bytes: seq<Byte> := if named then k.fds[c.fd] else 0, if named then k.objects[k.fds[c.fd]] else [];
        var told := c.Detach(k, nameLen);
        c.EmptyOthers(k);
        if named && nameLen > 0 {
          handed := [Handed(segment, inode, bytes, nameLen, told)];
        }
    }
  }

  /** What was handed off earlier is not touched by later operations. */
  lemma HandedKept(names: map<string, nat>, before: map<nat, seq<Byte>>, after: map<nat, seq<Byte>>, own: int,
                   first: map<string, nat>, handed: seq<Handed>)
    requires LinkedAfter(names, before, first, handed) && OthersKept(before, after, own)
    requires forall i | 0 <= i < |handed| :: handed[i].inode != own
    ensures LinkedAfter(names, after, first, handed)
  {}

  /**
   A whole session: afterwards the process has the descriptors and mappings it had before, every
   object that was there has its bytes, and the names are those linked before together with
   exactly the segments handed off, each still with its bytes.
   */
  method Session(c: Corpus, k: Kernel, t: Tiers, ops: seq<Op>) returns (handed: seq<Handed>)
    requires k.Valid() && c.Empty() && ValidOps(ops)
    modifies c, k, t
    ensures k.Valid() && c.Empty()
    ensures k.fds == old(k.fds) && k.maps == old(k.maps) && Kept(old(k.objects), k.objects)
    ensures LinkedAfter(k.names, k.objects, old(k.names), handed)
  {
    handed := [];
    c.EmptyOthers(k);
    for i := 0 to |ops|
      invariant k.Valid() && c.Owns(k)
      invariant c.Others(k).0 == old(k.fds) && c.Others(k).1 == old(k.maps)
      invariant Kept(old(k.objects), k.objects) && c.Object(k) !in old(k.objects)
      invariant LinkedAfter(c.Others(k).2, k.objects, old(k.names), handed)
      invariant forall l | 0 <= l < |handed| :: handed[l].inode != c.Object(k)
    {
      ghost var names, objects, own := c.Others(k).2, k.objects, c.Object(k);
      var more := Perform(c, k, t, ops[i]);
      HandedKept(names, objects, k.objects, own, old(k.names), handed);
      if more != [] {
        HandOff(names, k.objects, old(k.names), handed, c.Others(k).2, more[0]);
        handed := handed + [more[0]];
      }
    }
    c.Close(k);
  }

  /** The caller can open what it was handed exactly when its buffer is longer than the name. */
  lemma ToldTheName(h: Handed)
    requires ValidHanded(h)
    ensures h.told == h.segment <==> |h.segment| < h.nameLen
  {}

  /** A buffer of the handle's own name size always is. */
  lemma FullBufferSuffices(h: Handed)
    requires ValidHanded(h) && h.nameLen >= 64
    ensures h.told == h.segment
  {}
}
