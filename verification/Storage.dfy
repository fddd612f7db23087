/** The encrypted key-value store with one main file and one backup file. */
module Storage {
  import opened Bytes
  import opened Wrappers
  import opened Pkcs7

  const BLOCK: nat := 16

  /** The library functions that the store relies on: AES-CBC under the store's key (taking the
      initial vector and the data) and the JSON form of a map. */
  datatype Codec<!J(!new)> = Codec(
    encrypt: (bytes, bytes) -> bytes,
    decrypt: (bytes, bytes) -> bytes,
    marshal: map<bytes, J> -> bytes,
    unmarshal: bytes -> Option<map<bytes, J>>)
  {
    /** Decryption undoes encryption block by block, and parsing undoes printing. */
    ghost predicate Lawful() {
      && (forall iv, data {:trigger encrypt(iv, data)} :: |iv| == BLOCK && |data| % BLOCK == 0 ==>
            |encrypt(iv, data)| == |data| && decrypt(iv, encrypt(iv, data)) == data)
      && forall m :: unmarshal(marshal(m)) == Some(m)
    }

    /** The file that `save` writes for a map. */
    function Seal(iv: bytes, m: map<bytes, J>): bytes {
      iv + encrypt(iv, Pad(marshal(m), BLOCK))
    }

    /** The map that `decryptToStore` finds in a file. */
    function Open(blob: bytes): Option<map<bytes, J>> {
      if |blob| < BLOCK then None
      else
        match Unpad(decrypt(blob[..BLOCK], blob[BLOCK..]), BLOCK)
        case None => None
        case Some(raw) => unmarshal(raw)
    }

    lemma OpenSealed(iv: bytes, m: map<bytes, J>)
      requires Lawful() && |iv| == BLOCK
      ensures Open(Seal(iv, m)) == Some(m)
      ensures |Seal(iv, m)| > BLOCK && |Seal(iv, m)| % BLOCK == 0
    {
      var raw := marshal(m);
      PadFills(|raw|, BLOCK);
      UnpadPad(raw, BLOCK);
      var blob := Seal(iv, m);
      assert blob[..BLOCK] == iv && blob[BLOCK..] == encrypt(iv, Pad(raw, BLOCK));
    }
  }

  /** The map in memory and the two files. */
  datatype Disk<J> = Disk(store: map<bytes, J>, main: Option<bytes>, backup: Option<bytes>)

  datatype Op<J> =
    | Reopen
    | Set(key: bytes, value: J)
    | Delete(key: bytes)
    | Clear
    | Merge(entries: map<bytes, J>)
    | Restore

  datatype Done<J> = Done(disk: Disk<J>, saved: bool, ok: bool)

  /** `save`: the main file becomes the backup, then the map is written to the main file. */
  function Save<J(!new)>(c: Codec<J>, d: Disk<J>, iv: bytes): Done<J> {
    var backup := if d.main.Some? then d.main else d.backup;
    Done(Disk(d.store, Some(c.Seal(iv, d.store)), backup), true, true)
  }

  /** `Initialize` on a store that was just made. */
  function Initialize<J(!new)>(c: Codec<J>, d: Disk<J>, iv: bytes): Done<J> {
    if d.main.Some? && |d.main.value| > BLOCK && c.Open(d.main.value).Some? then
      Done(d.(store := c.Open(d.main.value).value), false, true)
    else if d.main.Some? && |d.main.value| > BLOCK && d.backup.Some? && c.Open(d.backup.value).Some? then
      Done(d.(store := c.Open(d.backup.value).value), false, true)
    else Save(c, d.(store := map[]), iv)
  }

  function Step<J(!new)>(c: Codec<J>, d: Disk<J>, op: Op<J>, iv: bytes): Done<J> {
    match op
    case Reopen => Initialize(c, d.(store := map[]), iv)
    case Set(key, value) => Save(c, d.(store := d.store[key := value]), iv)
    case Delete(key) =>
      if key in d.store then Save(c, d.(store := d.store - {key}), iv) else Done(d, false, true)
    case Clear => Save(c, d.(store := map[]), iv)
    case Merge(entries) => Save(c, d.(store := d.store + entries), iv)
    case Restore =>
      if d.backup.None? || c.Open(d.backup.value).None? then Done(d, false, false)
      else Save(c, d.(store := c.Open(d.backup.value).value), iv)
  }

  /** What the operations do to the map: `Set` binds one key, `Delete` unbinds one, `Clear` unbinds all
      and `Merge` binds those of the given map; every other key keeps what it had. Each saves, except a
      `Delete` of a key that is not there, which leaves the files alone. */
  lemma StoreAfter<J(!new)>(c: Codec<J>, d: Disk<J>, op: Op<J>, iv: bytes, x: bytes)
    ensures var done := Step(c, d, op, iv);
            var was, now := d.store, done.disk.store;
            var kept := (x in now <==> x in was) && (x in was ==> now[x] == was[x]);
            && (op.Set? ==>
                  done.ok && done.saved && (x == op.key ==> x in now && now[x] == op.value) && (x != op.key ==> kept))
            && (op.Delete? ==> done.ok && (x == op.key ==> x !in now) && (x != op.key ==> kept))
            && (op.Delete? && op.key in was ==> done.saved)
            && (op.Delete? && op.key !in was ==> !done.saved && done.disk == d)
            && (op.Clear? ==> done.ok && done.saved && x !in now)
            && (op.Merge? ==>
                  && done.ok && done.saved
                  && (x in op.entries ==> x in now && now[x] == op.entries[x])
                  && (x !in op.entries ==> kept))
  {
    hide Codec.Seal, Codec.Open;
  }

  /** What a save does to the files: the main file becomes the backup, if there is one, and the new
      main file begins with the initial vector and decodes to the map. */
  lemma SaveMeans<J(!new)>(c: Codec<J>, d: Disk<J>, iv: bytes)
    requires c.Lawful() && |iv| == 16
    ensures var done := Save(c, d, iv);
            && done.disk.store == d.store && done.disk.main.Some?
            && iv <= done.disk.main.value && c.Open(done.disk.main.value) == Some(d.store)
            && done.disk.backup == (if d.main.Some? then d.main else d.backup)
  {
    hide Codec.Open, Codec.Lawful;
    c.OpenSealed(iv, d.store);
  }

  /** Opening a store. A main file of more than 16 bytes that decodes is taken; if such a file does not
      decode, a backup that does is taken; the files are then left alone. Otherwise the store is empty
      and is saved, even if there is a backup beside a missing main file. */
  lemma ReopenMeans<J(!new)>(c: Codec<J>, d: Disk<J>, iv: bytes)
    ensures var done := Step(c, d, Reopen, iv);
            var long := d.main.Some? && |d.main.value| > 16;
            && (long && c.Open(d.main.value).Some? ==>
                  done.disk == d.(store := c.Open(d.main.value).value) && !done.saved)
            && (long && c.Open(d.main.value).None? && d.backup.Some? && c.Open(d.backup.value).Some? ==>
                  done.disk == d.(store := c.Open(d.backup.value).value) && !done.saved)
            && (!long || (c.Open(d.main.value).None? && (d.backup.None? || c.Open(d.backup.value).None?)) ==>
                  done.disk.store == map[] && done.saved)
  {
    hide Codec.Open, Codec.Seal;
  }

  /** Restoring takes the map of the backup and saves it; without a backup that decodes it fails and
      leaves everything alone. */
  lemma RestoreMeans<J(!new)>(c: Codec<J>, d: Disk<J>, iv: bytes)
    ensures var done := Step(c, d, Restore, iv);
            if d.backup.Some? && c.Open(d.backup.value).Some?
            then done.ok && done.saved && done.disk.store == c.Open(d.backup.value).value
            else !done.ok && !done.saved && done.disk == d
  {
    hide Codec.Open, Codec.Seal;
  }

  /** Every file is whole: the cipher is never run on a partial block. */
  predicate Whole(file: Option<bytes>) {
    file.Some? ==> |file.value| % BLOCK == 0
  }

  class Storage<J(!new)> {
    const codec: Codec<J>
    var store: map<bytes, J>
    var main: Option<bytes>
    var backup: Option<bytes>

    ghost function View(): Disk<J>
      reads this
    {
      Disk(store, main, backup)
    }

    ghost predicate Valid()
      reads this
    {
      codec.Lawful() && Whole(main) && Whole(backup)
    }

    constructor (codec: Codec<J>, main: Option<bytes>, backup: Option<bytes>)
      requires codec.Lawful() && Whole(main) && Whole(backup)
      ensures Valid() && this.codec == codec && View() == Disk(map[], main, backup)
    {
      this.codec := codec;
      this.store, this.main, this.backup := map[], main, backup;
    }

    method SaveFiles(iv: bytes)
      requires Valid() && |iv| == BLOCK
      modifies this`main, this`backup
      ensures Valid() && View() == Save(codec, old(View()), iv).disk
    {
      codec.OpenSealed(iv, store);
      var raw := codec.marshal(store);
      var padded := PadBlock(raw, BLOCK);
      var out := iv + codec.encrypt(iv, padded[..]);
      if main.Some? { backup := main; }
      main := Some(out);
    }

    method DecryptToStore(blob: bytes) returns (ok: bool)
      requires |blob| % BLOCK == 0
      modifies this`store
      ensures ok == codec.Open(blob).Some?
      ensures store == if ok then codec.Open(blob).value else old(store)
    {
      if |blob| < BLOCK { return false; }
      var plain := UnpadBlock(codec.decrypt(blob[..BLOCK], blob[BLOCK..]), BLOCK);
      if plain.None? { return false; }
      var obj := codec.unmarshal(plain.value);
      if obj.None? { return false; }
      store := obj.value;
      return true;
    }

    method InitializeStore(iv: bytes)
      requires Valid() && |iv| == BLOCK
      modifies this
      ensures Valid() && View() == Initialize(codec, old(View()), iv).disk
    {
      hide Codec.Open, Codec.Seal, Codec.Lawful;
      if main.Some? && |main.value| > BLOCK {
        var ok := DecryptToStore(main.value);
        if ok { return; }
        if backup.Some? {
          ok := DecryptToStore(backup.value);
          if ok { return; }
        }
      }
      store := map[];
      SaveFiles(iv);
    }

    /** The mutators, under the write lock. */
    method Mutate(op: Op<J>, iv: bytes) returns (ok: bool)
      requires Valid() && |iv| == BLOCK && !op.Reopen?
      modifies this
      ensures Valid() && View() == Step(codec, old(View()), op, iv).disk && ok == Step(codec, old(View()), op, iv).ok
    {
      hide Codec.Open, Codec.Seal, Codec.Lawful;
      ok := true;
      match op
      case Set(key, value) =>
        store := store[key := value];
        SaveFiles(iv);
      case Delete(key) =>
        if key !in store { return true; }
        store := store - {key};
        SaveFiles(iv);
      case Clear =>
        store := map[];
        SaveFiles(iv);
      case Merge(entries) =>
        store := store + entries;
        SaveFiles(iv);
      case Restore =>
        if backup.None? { return false; }
        var found := DecryptToStore(backup.value);
        if !found { return false; }
        SaveFiles(iv);
    }
  }

  /** The files agree with the maps that were saved so far: the main file and memory hold the last
      one, the backup the one before it, if there is one. */
  ghost predicate Mirrors<J(!new)>(c: Codec<J>, d: Disk<J>, saves: seq<map<bytes, J>>) {
    && saves != []
    && d.store == saves[|saves| - 1]
    && d.main.Some? && |d.main.value| > BLOCK && c.Open(d.main.value) == Some(d.store)
    && if |saves| == 1 then d.backup == None
       else d.backup.Some? && c.Open(d.backup.value) == Some(saves[|saves| - 2])
  }

  function Saves<J>(saves: seq<map<bytes, J>>, done: Done<J>): seq<map<bytes, J>> {
    if done.saved then saves + [done.disk.store] else saves
  }

  lemma SaveMirrors<J(!new)>(c: Codec<J>, d: Disk<J>, store: map<bytes, J>, saves: seq<map<bytes, J>>, iv: bytes)
    requires c.Lawful() && |iv| == BLOCK && Mirrors(c, d, saves)
    ensures Mirrors(c, Save(c, d.(store := store), iv).disk, saves + [store])
  {
    hide Codec.Open, Codec.Seal, Codec.Lawful;
    c.OpenSealed(iv, store);
  }

  lemma StepMirrors<J(!new)>(c: Codec<J>, d: Disk<J>, saves: seq<map<bytes, J>>, op: Op<J>, iv: bytes)
    requires c.Lawful() && |iv| == BLOCK && Mirrors(c, d, saves)
    ensures Mirrors(c, Step(c, d, op, iv).disk, Saves(saves, Step(c, d, op, iv)))
  {
    hide Codec.Open, Codec.Seal, Codec.Lawful;
    SaveMirrors(c, d, Step(c, d, op, iv).disk.store, saves, iv);
  }

  /** A whole life of the store: operations, each with the initial vector that its save would use. */
  function Run<J(!new)>(c: Codec<J>, d: Disk<J>, saves: seq<map<bytes, J>>, ops: seq<(Op<J>, bytes)>)
    : (Disk<J>, seq<map<bytes, J>>)
    decreases |ops|
  {
    if ops == [] then (d, saves)
    else
      var done := Step(c, d, ops[0].0, ops[0].1);
      Run(c, done.disk, Saves(saves, done), ops[1..])
  }

  lemma {:induction false} RunMirrors<J(!new)>(
    c: Codec<J>, d: Disk<J>, saves: seq<map<bytes, J>>, ops: seq<(Op<J>, bytes)>)
    requires c.Lawful() && Mirrors(c, d, saves)
    requires forall i :: 0 <= i < |ops| ==> |ops[i].1| == BLOCK
    ensures var (d', saves') := Run(c, d, saves, ops); Mirrors(c, d', saves')
    decreases |ops|
  {
    hide Step, Mirrors, Codec.Lawful;
    if ops != [] {
      StepMirrors(c, d, saves, ops[0].0, ops[0].1);
      var done := Step(c, d, ops[0].0, ops[0].1);
      RunMirrors(c, done.disk, Saves(saves, done), ops[1..]);
    }
  }

  /** In every life of a store that starts without files, the main file decodes to the map in memory
      and the backup to the map at the save before the last one. */
  lemma LifeMirrors<J(!new)>(c: Codec<J>, iv: bytes, ops: seq<(Op<J>, bytes)>)
    requires c.Lawful() && |iv| == BLOCK
    requires forall i :: 0 <= i < |ops| ==> |ops[i].1| == BLOCK
    ensures var d0 := Initialize(c, Disk(map[], None, None), iv).disk;
            var (d, saves) := Run(c, d0, [map[]], ops);
            Mirrors(c, d, saves)
  {
    hide Codec.Open, Codec.Seal, Codec.Lawful, Run;
    c.OpenSealed(iv, map[]);
    RunMirrors(c, Initialize(c, Disk(map[], None, None), iv).disk, [map[]], ops);
  }

  /** Once both files exist, restoring swaps their contents, so restoring twice brings back the map
      and both contents. */
  lemma RestoreSwaps<J(!new)>(c: Codec<J>, d: Disk<J>, saves: seq<map<bytes, J>>, iv: bytes, iv2: bytes)
    requires c.Lawful() && |iv| == BLOCK && |iv2| == BLOCK && Mirrors(c, d, saves) && |saves| >= 2
    ensures var one := Step(c, d, Restore, iv);
            var two := Step(c, one.disk, Restore, iv2);
            var previous := saves[|saves| - 2];
            && one.ok && one.disk.store == previous
            && c.Open(one.disk.main.value) == Some(previous) && one.disk.backup == d.main
            && two.ok && two.disk.store == d.store
            && c.Open(two.disk.main.value) == Some(d.store)
            && two.disk.backup.Some? && c.Open(two.disk.backup.value) == Some(previous)
  {
    hide Codec.Open, Codec.Seal, Codec.Lawful;
    c.OpenSealed(iv, saves[|saves| - 2]);
    c.OpenSealed(iv2, d.store);
  }
}
