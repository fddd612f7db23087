/** Reading, ordering and applying the PostgreSQL migrations. */
module Migration {
  import opened Bytes
  import opened Wrappers
  import opened Text

  datatype Migration = Migration(version: int, name: bytes, sql: bytes, checksum: bytes)

  // ----- sortMigrations

  predicate Sorted(s: seq<Migration>) {
    forall i, j :: 0 <= i < j < |s| ==> s[i].version <= s[j].version
  }

  predicate Ascending(s: seq<Migration>) {
    forall i, j :: 0 <= i < j < |s| ==> s[i].version < s[j].version
  }

  /** m behind the last element of s whose version is not greater. */
  function Insert(s: seq<Migration>, m: Migration): (r: seq<Migration>)
    ensures |r| == |s| + 1
  {
    if s == [] || s[|s| - 1].version <= m.version then s + [m]
    else Insert(s[..|s| - 1], m) + [s[|s| - 1]]
  }

  function Sort(s: seq<Migration>): (r: seq<Migration>)
    ensures |r| == |s|
  {
    if s == [] then [] else Insert(Sort(s[..|s| - 1]), s[|s| - 1])
  }

  lemma {:induction false} InsertKeeps(s: seq<Migration>, m: Migration)
    ensures multiset(Insert(s, m)) == multiset(s) + multiset{m}
    ensures forall x :: x in Insert(s, m) <==> x in s || x == m
  {
    if s != [] && s[|s| - 1].version > m.version {
      InsertKeeps(s[..|s| - 1], m);
      assert s == s[..|s| - 1] + [s[|s| - 1]];
    }
  }

  lemma {:induction false} InsertSorts(s: seq<Migration>, m: Migration)
    requires Sorted(s)
    ensures Sorted(Insert(s, m))
  {
    if s != [] && s[|s| - 1].version > m.version {
      var front, last := s[..|s| - 1], s[|s| - 1];
      InsertSorts(front, m);
      InsertKeeps(front, m);
      forall x | x in Insert(front, m)
        ensures x.version <= last.version
      {
      }
    }
  }

  /** The sorted list is in version order and has the same migrations, each as often. */
  lemma {:induction false} SortSorts(s: seq<Migration>)
    ensures Sorted(Sort(s)) && multiset(Sort(s)) == multiset(s)
  {
    if s != [] {
      var front, last := s[..|s| - 1], s[|s| - 1];
      SortSorts(front);
      InsertSorts(Sort(front), last);
      InsertKeeps(Sort(front), last);
      assert s == front + [last];
    }
  }

  lemma {:induction false} InsertAt(s: seq<Migration>, m: Migration, k: nat)
    requires k <= |s| && forall i :: k <= i < |s| ==> s[i].version > m.version
    requires k > 0 ==> s[k - 1].version <= m.version
    ensures Insert(s, m) == s[..k] + [m] + s[k..]
  {
    if k < |s| {
      InsertAt(s[..|s| - 1], m, k);
    }
  }

  /** `sortMigrations`, in place. */
  method SortMigrations(a: array<Migration>)
    modifies a
    ensures a[..] == Sort(old(a[..]))
  {
    ghost var was := a[..];
    if a.Length == 0 {
      return;
    }
    assert was[..1][..0] == [];
    assert Sort(was[..1]) == was[..1];
    for i := 1 to a.Length
      invariant a[..i] == Sort(was[..i])
      invariant forall k :: i <= k < a.Length ==> a[k] == was[k]
    {
      hide Sort;
      InsertCurrent(a, i);
      SortStep(was, i);
    }
    assert was[..a.Length] == was && a[..a.Length] == a[..];
  }

  lemma SortStep(s: seq<Migration>, i: nat)
    requires i < |s|
    ensures Sort(s[..i + 1]) == Insert(Sort(s[..i]), s[i])
  {
    assert s[..i + 1][..i] == s[..i];
  }

  /** The inner loop: the greater elements before i move up by one and leave room at j. */
  method ShiftUp(a: array<Migration>, i: nat, current: Migration) returns (j: nat)
    requires i < a.Length
    modifies a
    ensures j <= i
    ensures forall k :: 0 <= k < j ==> a[k] == old(a[k])
    ensures forall k :: j < k <= i ==> a[k] == old(a[k - 1])
    ensures forall k :: i < k < a.Length ==> a[k] == old(a[k])
    ensures forall k :: j <= k < i ==> old(a[k]).version > current.version
    ensures j > 0 ==> old(a[j - 1]).version <= current.version
  {
    j := i;
    while j > 0 && a[j - 1].version > current.version
      invariant 0 <= j <= i
      invariant forall k :: 0 <= k < j ==> a[k] == old(a[k])
      invariant forall k :: j < k <= i ==> a[k] == old(a[k - 1])
      invariant forall k :: i < k < a.Length ==> a[k] == old(a[k])
      invariant forall k :: j <= k < i ==> old(a[k]).version > current.version
    {
      a[j] := a[j - 1];
      j := j - 1;
    }
  }

  /** The body of the outer loop: the element at i moves to its place among those before it. */
  method InsertCurrent(a: array<Migration>, i: nat)
    requires i < a.Length
    modifies a
    ensures a[..i + 1] == Insert(old(a[..i]), old(a[i]))
    ensures forall k :: i < k < a.Length ==> a[k] == old(a[k])
  {
    hide Insert;
    ghost var p := a[..i];
    var current := a[i];
    var j := ShiftUp(a, i, current);
    a[j] := current;
    InsertAt(p, current, j);
    assert a[..j] == p[..j] && a[j + 1..i + 1] == p[j..];
    assert a[..i + 1] == a[..j] + [a[j]] + a[j + 1..i + 1];
  }

  // ----- readMigrations

  /** A directory entry; it has no content when it cannot be read. */
  datatype Entry = Entry(name: bytes, isDir: bool, content: Option<bytes>)

  datatype LoadError = BadName(name: bytes) | Duplicate(version: int, name: bytes) | Unreadable(name: bytes)

  const SQL_SUFFIX: bytes := Ascii(".sql")

  predicate Accepted(e: Entry) {
    !e.isDir && |e.name| >= 4 && e.name[|e.name| - 4..] == SQL_SUFFIX
  }

  /** `parseMigrationVersion`: the positive number before the first underscore. */
  function ParseVersion(name: bytes): (r: Option<int>)
    ensures r.Some? ==> r.value > 0
  {
    var i := Find(name, UNDERSCORE);
    if i == |name| || i == 0 then None
    else
      match ParseInt(name[..i], 10)
      case None => None
      case Some(v) => if v <= 0 then None else Some(v)
  }

  /** A numbered file name has its number as version. */
  lemma NumberedName(version: nat, rest: bytes)
    requires 0 < version <= INT64_MAX
    ensures ParseVersion(Decimal(version) + [UNDERSCORE] + rest) == Some(version)
  {
    var digits := Decimal(version);
    DecimalParses(version);
    assert UNDERSCORE !in digits;
    hide Decimal, ParseInt;
    FindAt(digits, UNDERSCORE, rest);
    assert (digits + [UNDERSCORE] + rest)[..|digits|] == digits;
  }

  /** Which names have a version: those with a number of at most 64 bits, greater than 0, before their
      first underscore. */
  lemma VersionIff(name: bytes, v: int)
    ensures ParseVersion(name) == Some(v) <==>
            v > 0 && 95 in name && ParseInt(name[..Find(name, 95)], 10) == Some(v)
  {
    assert 95 in name <==> Find(name, 95) < |name| by {
      if Find(name, 95) == |name| { assert name[..|name|] == name; }
    }
    if 95 in name && Find(name, 95) == 0 {
      assert name[..0] == [];
      assert ParseInt([], 10).None?;
    }
    hide ParseInt;
  }

  predicate Loadable(e: Entry) {
    ParseVersion(e.name).Some? && e.content.Some?
  }

  ghost predicate AllLoadable(entries: seq<Entry>) {
    forall e <- entries :: Accepted(e) ==> Loadable(e)
  }

  /** The migrations that the accepted files hold, in directory order. */
  function Loaded(entries: seq<Entry>, checksum: bytes -> bytes): seq<Migration> {
    if entries == [] then []
    else
      var e := entries[|entries| - 1];
      Loaded(entries[..|entries| - 1], checksum) +
      if Accepted(e) && Loadable(e)
      then [Migration(ParseVersion(e.name).value, e.name, e.content.value, checksum(e.content.value))] else []
  }

  /** The files that are loaded: everything but directories whose name ends in ".sql" and has a
      version; each becomes a migration with that version, its name, its content and the checksum of
      the content. */
  lemma {:induction false} LoadedMembers(entries: seq<Entry>, checksum: bytes -> bytes, m: Migration)
    ensures m in Loaded(entries, checksum) <==>
            exists e <- entries ::
              && !e.isDir && |e.name| >= 4 && e.name[|e.name| - 4..] == Ascii(".sql")
              && ParseVersion(e.name) == Some(m.version) && e.content == Some(m.sql)
              && m.name == e.name && m.checksum == checksum(m.sql)
  {
    hide ParseVersion, Ascii;
    if entries != [] {
      var front, last := entries[..|entries| - 1], entries[|entries| - 1];
      LoadedMembers(front, checksum, m);
      assert forall e :: e in entries <==> e in front || e == last;
    }
  }

  ghost predicate DistinctVersions(s: seq<Migration>) {
    forall i, j :: 0 <= i < j < |s| ==> s[i].version != s[j].version
  }

  function Versions(s: seq<Migration>): set<int> {
    set m <- s :: m.version
  }

  lemma {:induction false} LoadedPrefix(entries: seq<Entry>, i: nat, checksum: bytes -> bytes)
    requires i <= |entries|
    ensures Loaded(entries[..i], checksum) <= Loaded(entries, checksum)
  {
    if i == |entries| {
      assert entries[..i] == entries;
    } else {
      var front := entries[..|entries| - 1];
      LoadedPrefix(front, i, checksum);
      assert front[..i] == entries[..i];
    }
  }

  lemma LoadedStep(entries: seq<Entry>, i: nat, checksum: bytes -> bytes)
    requires i < |entries|
    ensures var e := entries[i];
            Loaded(entries[..i + 1], checksum) == Loaded(entries[..i], checksum) +
            if Accepted(e) && Loadable(e)
            then [Migration(ParseVersion(e.name).value, e.name, e.content.value, checksum(e.content.value))] else []
  {
    assert entries[..i + 1][..i] == entries[..i];
  }

  lemma {:induction false} InsertAscends(s: seq<Migration>, m: Migration)
    requires Ascending(s) && forall x <- s :: x.version != m.version
    ensures Ascending(Insert(s, m))
  {
    if s != [] && s[|s| - 1].version > m.version {
      var front := s[..|s| - 1];
      InsertAscends(front, m);
      InsertKeeps(front, m);
      forall i | 0 <= i < |Insert(front, m)|
        ensures Insert(front, m)[i].version < s[|s| - 1].version
      {
        assert Insert(front, m)[i] in Insert(front, m);
      }
    }
  }

  lemma {:induction false} SortAscends(s: seq<Migration>)
    requires DistinctVersions(s)
    ensures Ascending(Sort(s)) && multiset(Sort(s)) == multiset(s)
  {
    SortSorts(s);
    if s != [] {
      var front, last := s[..|s| - 1], s[|s| - 1];
      SortAscends(front);
      forall x | x in Sort(front)
        ensures x.version != last.version
      {
        assert x in multiset(front);
      }
      InsertAscends(Sort(front), last);
    }
  }

  /** The error names an accepted file and what is wrong with it. */
  ghost predicate Blames(entries: seq<Entry>, err: LoadError) {
    match err
    case BadName(name) => exists e <- entries :: Accepted(e) && e.name == name && ParseVersion(name).None?
    case Unreadable(name) => exists e <- entries :: Accepted(e) && e.name == name && e.content.None?
    case Duplicate(version, name) =>
      exists i, j ::
        && 0 <= i < j < |entries| && Accepted(entries[i]) && Accepted(entries[j]) && entries[j].name == name
        && ParseVersion(entries[i].name) == Some(version) && ParseVersion(name) == Some(version)
  }

  /** `readMigrations`: succeeds exactly when every accepted file can be loaded and no two have the
      same version, and then gives the accepted files in strictly ascending version order. */
  method ReadMigrations(entries: seq<Entry>, checksum: bytes -> bytes) returns (r: Result<seq<Migration>, LoadError>)
    ensures r.Ok? <==> AllLoadable(entries) && DistinctVersions(Loaded(entries, checksum))
    ensures r.Ok? ==> Ascending(r.value) && multiset(r.value) == multiset(Loaded(entries, checksum))
    ensures r.Err? ==> Blames(entries, r.error)
  {
    hide Loaded, Sort, ParseVersion;
    var seen: map<int, bytes>, out: seq<Migration> := map[], [];
    assert Loaded(entries[..0], checksum) == [] by { LoadedNothing(entries[..0], checksum); }
    for i := 0 to |entries|
      invariant out == Loaded(entries[..i], checksum)
      invariant AllLoadable(entries[..i]) && DistinctVersions(out) && seen.Keys == Versions(out)
      invariant forall v <- seen ::
                  exists k :: 0 <= k < i && Accepted(entries[k]) && ParseVersion(entries[k].name) == Some(v)
    {
      var e := entries[i];
      LoadedStep(entries, i, checksum);
      LoadedPrefix(entries, i + 1, checksum);
      if !Accepted(e) { continue; }
      var version := ParseVersion(e.name);
      if version.None? { return Err(BadName(e.name)); }
      if version.value in seen {
        if Loadable(e) {
          ghost var k :| 0 <= k < |out| && out[k].version == version.value;
          assert Loaded(entries, checksum)[|out|].version == Loaded(entries, checksum)[k].version;
        }
        return Err(Duplicate(version.value, e.name));
      }
      seen := seen[version.value := e.name];
      if e.content.None? { return Err(Unreadable(e.name)); }
      out := out + [Migration(version.value, e.name, e.content.value, checksum(e.content.value))];
    }
    assert entries[..|entries|] == entries;
    var a := new Migration[|out|](i requires 0 <= i < |out| => out[i]);
    assert a[..] == out;
    SortMigrations(a);
    SortAscends(out);
    return Ok(a[..]);
  }

  lemma LoadedNothing(entries: seq<Entry>, checksum: bytes -> bytes)
    requires entries == []
    ensures Loaded(entries, checksum) == []
  {
  }
}
