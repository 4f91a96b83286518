/** File metadata: a list of records kept in one file, proved to act as a map by file name. */
module FileMeta {
  import opened CStrings
  import opened Options

  const MAX_FILENAME: nat := 64
  const MAX_USERNAME: nat := 32
  const MAX_GROUP: nat := 32
  const REWRITE_LIMIT: nat := 1024

  datatype Record = Record(filename: string, owner: string, group: string, permissions: string, encrypted: bool)

  /** Equality of the first n characters of two C strings. */
  predicate SameUpTo(a: string, b: string, n: nat) {
    (if |a| < n then a else a[..n]) == (if |b| < n then b else b[..n])
  }

  // ----- Permission strings -----

  const FULL_PERMISSIONS: string := "rwxrwxrwx"

  /** Each of the nine places holds its own letter or a dash. */
  predicate ValidPerms(p: string) {
    |p| == 9 && forall i :: 0 <= i < 9 ==> p[i] == FULL_PERMISSIONS[i] || p[i] == '-'
  }

  method IsValidPermString(p: string) returns (ok: bool)
    ensures ok <==> |p| == 9 && forall i :: 0 <= i < 9 ==> p[i] == '-' || p[i] == "rwxrwxrwx"[i]
    ensures ok == ValidPerms(p)
  {
    if |p| != 9 {
      return false;
    }
    for i := 0 to 9
      invariant forall j :: 0 <= j < i ==> p[j] == FULL_PERMISSIONS[j] || p[j] == '-'
    {
      if p[i] != FULL_PERMISSIONS[i] && p[i] != '-' {
        return false;
      }
    }
    return true;
  }

  datatype Access = ToRead | ToWrite | ToExecute

  function Offset(a: Access): nat {
    match a
    case ToRead => 0
    case ToWrite => 1
    case ToExecute => 2
  }

  /** Access by the owner's, the group's or everybody's part of the permissions. */
  predicate Permitted(username: string, group: string, r: Record, a: Access)
    requires |r.permissions| == 9
  {
    var base := if SameUpTo(username, r.owner, MAX_USERNAME) then 0
                else if SameUpTo(group, r.group, MAX_GROUP) then 3
                else 6;
    r.permissions[base + Offset(a)] != '-'
  }

  /** With valid permissions, access is granted exactly when its own letter stands in the part
      that applies. */
  lemma PermittedMeans(username: string, group: string, r: Record, a: Access)
    requires ValidPerms(r.permissions) && |r.owner| < 32 && |r.group| < 32
    ensures Permitted(username, group, r, a) <==>
              var letter := "rwx"[Offset(a)];
              if username == r.owner then r.permissions[Offset(a)] == letter
              else if group == r.group then r.permissions[3 + Offset(a)] == letter
              else r.permissions[6 + Offset(a)] == letter
  {
    SameShort(username, r.owner, MAX_USERNAME);
    SameShort(group, r.group, MAX_GROUP);
    var base := if username == r.owner then 0 else if group == r.group then 3 else 6;
    assert FULL_PERMISSIONS[base + Offset(a)] == "rwx"[Offset(a)];
  }

  /** Comparison with a string shorter than the limit is equality. */
  lemma SameShort(a: string, b: string, n: nat)
    requires |b| < n
    ensures SameUpTo(a, b, n) <==> a == b
  {
    if |a| >= n {
      assert |a[..n]| == n;
    }
  }

  // ----- The operations on the records -----

  predicate Named(r: Record, name: string) {
    SameUpTo(r.filename, name, MAX_FILENAME)
  }

  /** The position of the first record of the name, or the number of records. */
  function Find(records: seq<Record>, name: string): (i: nat)
    ensures i <= |records| && (i < |records| ==> Named(records[i], name))
    ensures forall j :: 0 <= j < i ==> !Named(records[j], name)
  {
    if records == [] then 0
    else if Named(records[0], name) then 0
    else
      var rest := records[1..];
      assert forall j :: 1 <= j < |records| ==> records[j] == rest[j - 1];
      1 + Find(rest, name)
  }

  function Lookup(records: seq<Record>, name: string): Option<Record> {
    var i := Find(records, name);
    if i < |records| then Some(records[i]) else None
  }

  function NewRecord(name: string, owner: string, group: string, perms: string): Record {
    Record(Cut(name, MAX_FILENAME), Cut(owner, MAX_USERNAME), Cut(group, MAX_GROUP), perms, false)
  }

  function Create(records: seq<Record>, name: string, owner: string, group: string, perms: string)
    : (seq<Record>, bool)
  {
    if !ValidPerms(perms) || Lookup(records, name).Some? then (records, false)
    else (records + [NewRecord(name, owner, group, perms)], true)
  }

  /** What a rewrite does to the records of one name. */
  datatype Change = Remove | Update(perms: Option<string>, encrypted: Option<bool>)

  function Changed(r: Record, change: Change): Record
    requires change.Update?
  {
    r.(permissions := (if change.perms.Some? then change.perms.value else r.permissions),
       encrypted := if change.encrypted.Some? then change.encrypted.value else r.encrypted)
  }

  /** What is written for one record. */
  function Written(r: Record, name: string, change: Change): seq<Record> {
    if !Named(r, name) then [r]
    else if change.Remove? then []
    else [Changed(r, change)]
  }

  function RewriteAll(records: seq<Record>, name: string, change: Change): seq<Record> {
    if records == [] then []
    else
      var n := |records| - 1;
      RewriteAll(records[..n], name, change) + Written(records[n], name, change)
  }

  /** The records that a rewrite reads back: no more than its limit. */
  function Loaded(records: seq<Record>): (r: seq<Record>)
    ensures r <= records
  {
    if |records| <= REWRITE_LIMIT then records else records[..REWRITE_LIMIT]
  }

  /** The records after a rewrite, and whether it met the name. */
  function Rewrite(records: seq<Record>, name: string, change: Change): (seq<Record>, bool) {
    (RewriteAll(Loaded(records), name, change), Find(Loaded(records), name) < |Loaded(records)|)
  }

  function Chmod(records: seq<Record>, name: string, perms: string): (seq<Record>, bool) {
    if !ValidPerms(perms) then (records, false) else Rewrite(records, name, Update(Some(perms), None))
  }

  function SetEncrypted(records: seq<Record>, name: string, encrypted: bool): (seq<Record>, bool) {
    Rewrite(records, name, Update(None, Some(encrypted)))
  }

  function Delete(records: seq<Record>, name: string): (seq<Record>, bool) {
    Rewrite(records, name, Remove)
  }

  // ----- The map the records stand for -----

  ghost function Names(records: seq<Record>): set<string> {
    set i | 0 <= i < |records| :: records[i].filename
  }

  /** No name twice, all names within their buffers, all permissions valid. */
  ghost predicate WellFormed(records: seq<Record>) {
    && UniqueNames(records)
    && forall i :: 0 <= i < |records| ==> RecordOk(records[i])
  }

  ghost predicate UniqueNames(records: seq<Record>) {
    forall i, j :: 0 <= i < j < |records| ==> records[i].filename != records[j].filename
  }

  predicate RecordOk(r: Record) {
    && |r.filename| < MAX_FILENAME && |r.owner| < MAX_USERNAME && |r.group| < MAX_GROUP
    && ValidPerms(r.permissions)
  }

  ghost function MapOf(records: seq<Record>): (m: map<string, Record>)
    ensures m.Keys == Names(records)
  {
    map k | k in Names(records) :: records[Place(records, k)]
  }

  ghost function Place(records: seq<Record>, name: string): (i: nat)
    requires name in Names(records)
    ensures i < |records| && records[i].filename == name
  {
    var i :| 0 <= i < |records| && records[i].filename == name;
    i
  }

  lemma PlaceIs(records: seq<Record>, i: nat)
    requires UniqueNames(records) && i < |records|
    ensures records[i].filename in MapOf(records) && MapOf(records)[records[i].filename] == records[i]
  {
    var name := records[i].filename;
    assert name in Names(records);
    var j := Place(records, name);
  }

  /** Finding a record is looking its name up in the map. */
  lemma LookupIsMap(records: seq<Record>, name: string)
    requires WellFormed(records)
    ensures Lookup(records, name) == if name in MapOf(records) then Some(MapOf(records)[name]) else None
  {
    hide Named, MapOf;
    var i := Find(records, name);
    if name in Names(records) {
      var j :| 0 <= j < |records| && records[j].filename == name;
      assert RecordOk(records[j]);
      NamedMeans(records[j], name);
    }
    if i < |records| {
      assert RecordOk(records[i]);
      NamedMeans(records[i], name);
      PlaceIs(records, i);
    }
  }

  lemma NamedMeans(r: Record, name: string)
    requires |r.filename| < MAX_FILENAME
    ensures Named(r, name) <==> r.filename == name
  {
    SameShort(name, r.filename, MAX_FILENAME);
  }

  /** Creating succeeds exactly for a valid permission string and a name not there; it then
      appends one record, and otherwise changes nothing. */
  lemma CreateRefines(records: seq<Record>, name: string, owner: string, group: string, perms: string)
    requires WellFormed(records) && |name| < MAX_FILENAME
    ensures var (after, ok) := Create(records, name, owner, group, perms);
            var m := MapOf(records);
            && WellFormed(after)
            && (ok <==> ValidPerms(perms) && name !in m)
            && after == (if ok then records + [NewRecord(name, owner, group, perms)] else records)
            && MapOf(after) == (if ok then m[name := NewRecord(name, owner, group, perms)] else m)
  {
    hide ValidPerms, Cut, MapOf;
    LookupIsMap(records, name);
    var (after, ok) := Create(records, name, owner, group, perms);
    if ok {
      AppendRefines(records, NewRecord(name, owner, group, perms));
    }
  }

  lemma AppendRefines(records: seq<Record>, r: Record)
    requires WellFormed(records) && RecordOk(r) && r.filename !in MapOf(records)
    ensures var after := records + [r];
            WellFormed(after) && MapOf(after) == MapOf(records)[r.filename := r]
  {
    hide RecordOk, MapOf;
    var after, m := records + [r], MapOf(records)[r.filename := r];
    assert forall i :: 0 <= i < |records| ==> after[i] == records[i] && records[i].filename in Names(records);
    assert after[|records|] == r;
    forall i | 0 <= i < |after| ensures after[i].filename in m && m[after[i].filename] == after[i] {
      if i < |records| {
        PlaceIs(records, i);
      }
    }
    MapIs(after, m);
  }

  /** A map is the one of the records when it has their names and holds each record. */
  lemma MapIs(records: seq<Record>, m: map<string, Record>)
    requires UniqueNames(records)
    requires forall i :: 0 <= i < |records| ==> records[i].filename in m && m[records[i].filename] == records[i]
    requires forall k :: k in m ==> k in Names(records)
    ensures MapOf(records) == m
  {
    forall k | k in m ensures MapOf(records)[k] == m[k] {
      var i := Place(records, k);
      PlaceIs(records, i);
    }
  }

  /** With a name of any length, creating keeps names unique exactly unless it cuts the name down
      to one already there. */
  lemma CreateKeepsUniqueExactly(records: seq<Record>, name: string, owner: string, group: string, perms: string)
    requires WellFormed(records)
    ensures var (after, ok) := Create(records, name, owner, group, perms);
            UniqueNames(after) <==>
              (!ok || |name| < 64 || name[..63] !in MapOf(records))
  {
    hide ValidPerms, MapOf;
    var (after, ok) := Create(records, name, owner, group, perms);
    var kept := Cut(name, MAX_FILENAME);
    if ok {
      LookupIsMap(records, name);
      assert forall i :: 0 <= i < |records| ==> after[i] == records[i];
      assert after[|records|].filename == kept;
      if kept in Names(records) {
        var i := Place(records, kept);
        assert after[i].filename == kept;
      } else {
        assert forall i :: 0 <= i < |records| ==> records[i].filename in Names(records);
      }
    }
  }

  /** A name of 64 characters can be created twice. */
  lemma CreatedTwice(owner: string, group: string)
    ensures var name, perms := seq(64, _ => 'a'), "rw-------";
            var (once, ok) := Create([], name, owner, group, perms);
            var (twice, ok') := Create(once, name, owner, group, perms);
            ok && ok' && !UniqueNames(twice)
  {
    var name, perms := seq(64, _ => 'a'), "rw-------";
    var r := NewRecord(name, owner, group, perms);
    assert ValidPerms(perms);
    NamedMeans(r, name);
    assert Lookup([], name) == None && Lookup([r], name) == None;
    var twice := [r] + [r];
    assert [] + [r] == [r];
    assert Create([], name, owner, group, perms) == ([r], true);
    assert Create([r], name, owner, group, perms) == (twice, true);
    assert twice[0].filename == twice[1].filename;
  }

  // ----- Rewriting -----

  /** The records of other names, in order. */
  function Others(records: seq<Record>, name: string): seq<Record> {
    if records == [] then []
    else
      var n := |records| - 1;
      Others(records[..n], name) + if Named(records[n], name) then [] else [records[n]]
  }

  /** A change that keeps the name keeps the records of other names, each where it was among
      them, and so does removing. */
  lemma {:induction false} OthersUntouched(records: seq<Record>, name: string, change: Change)
    ensures Others(RewriteAll(records, name, change), name) == Others(records, name)
  {
    if records == [] {
    } else {
      hide Named;
      var n := |records| - 1;
      OthersUntouched(records[..n], name, change);
      var front, w := RewriteAll(records[..n], name, change), Written(records[n], name, change);
      if w == [] {
        assert front + w == front;
      } else {
        ChangedName(records[n], name, change);
        assert (front + w)[..|front|] == front && (front + w)[|front|] == w[0];
      }
    }
  }

  lemma ChangedName(r: Record, name: string, change: Change)
    requires Written(r, name, change) != []
    ensures Named(Written(r, name, change)[0], name) <==> Named(r, name)
  {
  }

  /** Removing from all records leaves the records of other names. */
  lemma {:induction false} RemoveAll(records: seq<Record>, name: string)
    ensures RewriteAll(records, name, Remove) == Others(records, name)
  {
    if records != [] {
      RemoveAll(records[..|records| - 1], name);
    }
  }

  /** Updating all records changes each record of the name and no other. */
  lemma {:induction false} UpdateAll(records: seq<Record>, name: string, change: Change)
    requires change.Update?
    ensures var after := RewriteAll(records, name, change);
            && |after| == |records|
            && forall i :: 0 <= i < |records| ==>
                 after[i] == if Named(records[i], name) then Changed(records[i], change) else records[i]
  {
    if records != [] {
      hide Named, Changed;
      UpdateAll(records[..|records| - 1], name, change);
    }
  }

  lemma {:induction false} OthersSplit(a: seq<Record>, b: seq<Record>, name: string)
    ensures Others(a + b, name) == Others(a, name) + Others(b, name)
  {
    if b == [] {
      assert a + b == a;
    } else {
      var n := |b| - 1;
      var r := b[n];
      OthersSplit(a, b[..n], name);
      hide Others, Named;
      assert a + b == (a + b[..n]) + [r] && b == b[..n] + [r];
      OthersSnoc(a + b[..n], r, name);
      OthersSnoc(b[..n], r, name);
      Regroup(Others(a, name), Others(b[..n], name), [r]);
    }
  }

  lemma Regroup(a: seq<Record>, b: seq<Record>, c: seq<Record>)
    ensures (a + b) + c == a + (b + c)
  {
  }

  /** An update does what it would with all records read back exactly when there are no more
      records than the limit. */
  lemma UpdateExactly(records: seq<Record>, name: string, change: Change)
    requires change.Update?
    ensures Rewrite(records, name, change).0 == RewriteAll(records, name, change)
       <==> |records| <= 1024
  {
    hide Named, Changed;
    UpdateAll(records, name, change);
    UpdateAll(Loaded(records), name, change);
  }

  /** Any rewrite keeps all records of other names, in order, exactly when every record past the
      limit has the name. */
  lemma OthersKeptExactly(records: seq<Record>, name: string, change: Change)
    ensures Others(Rewrite(records, name, change).0, name) == Others(records, name)
       <==> (forall i :: 1024 <= i < |records| ==> Named(records[i], name))
  {
    hide Named, Others, RewriteAll;
    OthersUntouched(Loaded(records), name, change);
    RemoveAll(Loaded(records), name);
    RemoveExactly(records, name);
  }

  /** A removal keeps all other records exactly when every record past the limit has the name. */
  lemma RemoveExactly(records: seq<Record>, name: string)
    ensures Rewrite(records, name, Remove).0 == Others(records, name)
       <==> (forall i :: 1024 <= i < |records| ==> Named(records[i], name))
  {
    hide Named, Others, RewriteAll;
    var loaded := Loaded(records);
    var lost := records[|loaded|..];
    assert records == loaded + lost;
    RemoveAll(loaded, name);
    OthersSplit(loaded, lost, name);
    NoOthers(lost, name);
    LostNamed(records, name);
    NothingAppended(Others(loaded, name), Others(lost, name));
  }

  lemma NothingAppended(a: seq<Record>, b: seq<Record>)
    ensures a == a + b <==> b == []
  {
    assert |a + b| == |a| + |b|;
  }

  lemma LostNamed(records: seq<Record>, name: string)
    ensures var lost := records[|Loaded(records)|..];
            (forall i :: 0 <= i < |lost| ==> Named(lost[i], name)) <==>
            (forall i :: REWRITE_LIMIT <= i < |records| ==> Named(records[i], name))
  {
    hide Named;
    var n := |Loaded(records)|;
    var lost := records[n..];
    assert forall i :: n <= i < |records| ==> records[i] == lost[i - n];
  }

  lemma {:induction false} NoOthers(records: seq<Record>, name: string)
    ensures Others(records, name) == [] <==> forall i :: 0 <= i < |records| ==> Named(records[i], name)
  {
    if records != [] {
      hide Named;
      NoOthers(records[..|records| - 1], name);
    }
  }

  /** Within the limit, an update of well-formed records changes the map at the name alone. */
  lemma UpdateRefines(records: seq<Record>, name: string, change: Change)
    requires WellFormed(records) && |records| <= REWRITE_LIMIT && change.Update?
    requires change.perms.Some? ==> ValidPerms(change.perms.value)
    ensures var (after, found) := Rewrite(records, name, change);
            var m := MapOf(records);
            && WellFormed(after) && |after| == |records|
            && found == (name in m)
            && MapOf(after) == if found then m[name := Changed(m[name], change)] else m
  {
    hide Named, MapOf, ValidPerms;
    var after, m := RewriteAll(records, name, change), MapOf(records);
    UpdateAll(records, name, change);
    LookupIsMap(records, name);
    UpdateWellFormed(records, after, name, change);
    UpdateMap(records, after, name, change);
  }

  lemma UpdateMap(records: seq<Record>, after: seq<Record>, name: string, change: Change)
    requires WellFormed(records) && WellFormed(after) && change.Update? && |after| == |records|
    requires Names(after) == Names(records)
    requires forall i :: 0 <= i < |records| ==>
               after[i] == if Named(records[i], name) then Changed(records[i], change) else records[i]
    ensures var m := MapOf(records);
            MapOf(after) == if name in m then m[name := Changed(m[name], change)] else m
  {
    hide Named, MapOf, ValidPerms, Names;
    var m := MapOf(records);
    var m' := if name in m then m[name := Changed(m[name], change)] else m;
    forall i | 0 <= i < |after| ensures after[i].filename in m' && m'[after[i].filename] == after[i] {
      PlaceIs(records, i);
      NamedMeans(records[i], name);
    }
    MapIs(after, m');
  }

  lemma UpdateWellFormed(records: seq<Record>, after: seq<Record>, name: string, change: Change)
    requires WellFormed(records) && change.Update? && |after| == |records|
    requires change.perms.Some? ==> ValidPerms(change.perms.value)
    requires forall i :: 0 <= i < |records| ==>
               after[i] == if Named(records[i], name) then Changed(records[i], change) else records[i]
    ensures WellFormed(after) && Names(after) == Names(records)
  {
    hide Named, ValidPerms;
    assert forall i :: 0 <= i < |records| ==> after[i].filename == records[i].filename && RecordOk(records[i]);
    forall k | k in Names(records) ensures k in Names(after) {
      var i := Place(records, k);
      assert after[i].filename == k;
    }
    forall k | k in Names(after) ensures k in Names(records) {
      var i := Place(after, k);
      assert records[i].filename == k;
    }
  }

  /** A removal of well-formed records that loses no other takes the name out of the map. */
  lemma RemoveSurvives(records: seq<Record>, name: string)
    requires WellFormed(records)
    requires forall i :: REWRITE_LIMIT <= i < |records| ==> Named(records[i], name)
    ensures var after := Delete(records, name).0;
            WellFormed(after) && MapOf(after) == MapOf(records) - {name}
  {
    hide Named, MapOf, WellFormed, Others, RewriteAll;
    RemoveExactly(records, name);
    OthersRefines(records, name);
  }

  lemma {:induction false} NamesWithin(records: seq<Record>, name: string, change: Change)
    ensures Names(RewriteAll(records, name, change)) <= Names(records)
  {
    if records != [] {
      hide Named;
      var n := |records| - 1;
      var front := RewriteAll(records[..n], name, change);
      NamesWithin(records[..n], name, change);
      forall k | k in Names(RewriteAll(records, name, change)) ensures k in Names(records) {
        var i :| 0 <= i < |RewriteAll(records, name, change)| && RewriteAll(records, name, change)[i].filename == k;
        if i < |front| {
          assert front[i].filename == k && k in Names(records[..n]);
          var j :| 0 <= j < n && records[..n][j].filename == k;
          assert records[j].filename == k;
        } else {
          assert records[n].filename == k;
        }
      }
    }
  }

  /** A rewrite loses every record past the limit. */
  lemma NameLost(records: seq<Record>, name: string, change: Change, i: nat)
    requires UniqueNames(records) && REWRITE_LIMIT <= i < |records|
    ensures records[i].filename !in Names(Rewrite(records, name, change).0)
  {
    hide Named, RewriteAll;
    NamesWithin(Loaded(records), name, change);
    assert forall j :: 0 <= j < REWRITE_LIMIT ==> Loaded(records)[j].filename == records[j].filename;
    assert records[i].filename !in Names(Loaded(records));
  }

  /** Within the limit, a removal from well-formed records takes the name out of the map. */
  lemma RemoveRefines(records: seq<Record>, name: string)
    requires WellFormed(records) && |records| <= REWRITE_LIMIT
    ensures var (after, found) := Delete(records, name);
            var m := MapOf(records);
            && WellFormed(after) && |after| <= |records|
            && found == (name in m)
            && MapOf(after) == m - {name}
  {
    hide Named, MapOf;
    LookupIsMap(records, name);
    RemoveAll(records, name);
    OthersRefines(records, name);
  }

  lemma {:induction false} OthersRefines(records: seq<Record>, name: string)
    requires WellFormed(records)
    ensures var after := Others(records, name);
            WellFormed(after) && |after| <= |records| && MapOf(after) == MapOf(records) - {name}
  {
    hide Named, Others, MapOf, WellFormed, Names;
    if records == [] {
      EmptyRecords(name);
    } else {
      var n := |records| - 1;
      var front, r := records[..n], records[n];
      assert records == front + [r];
      FrontWellFormed(front, r);
      OthersRefines(front, name);
      NamedMeans(r, name);
      OthersSnoc(front, r, name);
      if r.filename != name {
        OneMoreOther(front, Others(front, name), r, name);
      } else {
        NoMoreOther(front, r);
      }
    }
  }

  lemma EmptyRecords(name: string)
    ensures WellFormed([]) && MapOf([]) == map[] && Others([], name) == []
  {
    assert Names([]) == {};
  }

  lemma OthersSnoc(front: seq<Record>, r: Record, name: string)
    ensures Others(front + [r], name) == if Named(r, name) then Others(front, name) else Others(front, name) + [r]
  {
    hide Named;
    assert (front + [r])[..|front|] == front;
    assert Others(front, name) + [] == Others(front, name);
  }

  lemma FrontWellFormed(front: seq<Record>, r: Record)
    requires WellFormed(front + [r])
    ensures WellFormed(front) && RecordOk(r) && r.filename !in MapOf(front)
    ensures MapOf(front + [r]) == MapOf(front)[r.filename := r]
  {
    hide RecordOk, MapOf;
    var all := front + [r];
    assert all[|front|] == r && forall i :: 0 <= i < |front| ==> all[i] == front[i];
    AppendRefines(front, r);
  }

  lemma OneMoreOther(front: seq<Record>, others: seq<Record>, r: Record, name: string)
    requires WellFormed(others) && RecordOk(r) && r.filename != name && r.filename !in MapOf(front)
    requires MapOf(others) == MapOf(front) - {name}
    ensures WellFormed(others + [r])
    ensures MapOf(others + [r]) == MapOf(front)[r.filename := r] - {name}
  {
    hide MapOf, RecordOk, WellFormed;
    AppendRefines(others, r);
    assert (MapOf(front) - {name})[r.filename := r] == MapOf(front)[r.filename := r] - {name};
  }

  lemma NoMoreOther(front: seq<Record>, r: Record)
    requires r.filename !in MapOf(front)
    ensures MapOf(front)[r.filename := r] - {r.filename} == MapOf(front) - {r.filename}
  {
    hide MapOf;
  }

  /** A name for each number below 10000. */
  function NameOf(i: nat): string
    requires i < 10000
  {
    [(33 + i / 100) as char, (33 + i % 100) as char]
  }

  function ManyRecords(n: nat): (records: seq<Record>)
    requires n <= 10000
    ensures |records| == n
    ensures forall i :: 0 <= i < n ==> records[i] == Record(NameOf(i), "", "", "---------", false)
  {
    seq(n, i requires 0 <= i < n => Record(NameOf(i), "", "", "---------", false))
  }

  lemma NamesDiffer(i: nat, j: nat)
    requires i < j < 10000
    ensures NameOf(i) != NameOf(j)
  {
    assert NameOf(i)[0] as int - 33 == i / 100 && NameOf(i)[1] as int - 33 == i % 100;
    assert NameOf(j)[0] as int - 33 == j / 100 && NameOf(j)[1] as int - 33 == j % 100;
  }

  /** Past the limit a record is lost: with 1025 files, changing the first loses the last. */
  lemma RewriteLosesRecord()
    ensures var all := ManyRecords(1025);
            && WellFormed(all)
            && Lookup(all, NameOf(1024)).Some?
            && Lookup(SetEncrypted(all, NameOf(0), true).0, NameOf(1024)).None?
  {
    hide NameOf, ManyRecords, WellFormed, Named, SetEncrypted;
    var all, last := ManyRecords(1025), NameOf(1024);
    ManyWellFormed(1025);
    NameLength(1024);
    NamedMeans(all[1024], last);
    forall i | 0 <= i < REWRITE_LIMIT ensures !Named(all[i], last) {
      NamesDiffer(i, 1024);
      NameLength(i);
      NamedMeans(all[i], last);
    }
    LostPastLimit(all, NameOf(0), true, last);
  }

  lemma LostPastLimit(records: seq<Record>, name: string, flag: bool, lost: string)
    requires |records| > REWRITE_LIMIT && forall i :: 0 <= i < REWRITE_LIMIT ==> !Named(records[i], lost)
    ensures Lookup(SetEncrypted(records, name, flag).0, lost) == None
  {
    hide SameUpTo;
    var change := Update(None, Some(flag));
    UpdateAll(Loaded(records), name, change);
    var after := RewriteAll(Loaded(records), name, change);
    assert forall i :: 0 <= i < |after| ==> Named(after[i], lost) == Named(records[i], lost);
  }

  lemma ManyWellFormed(n: nat)
    requires n <= 10000
    ensures WellFormed(ManyRecords(n))
  {
    hide NameOf, ManyRecords;
    var all := ManyRecords(n);
    forall i, j | 0 <= i < j < n ensures all[i].filename != all[j].filename {
      NamesDiffer(i, j);
    }
    forall i | 0 <= i < n ensures RecordOk(all[i]) {
      NameLength(i);
    }
  }

  lemma NameLength(i: nat)
    requires i < 10000
    ensures |NameOf(i)| == 2
  {
  }

  // ----- Runs of operations -----

  datatype Op =
    | CreateOp(name: string, owner: string, group: string, perms: string)
    | ChmodOp(name: string, perms: string)
    | SetOp(name: string, encrypted: bool)
    | DeleteOp(name: string)

  function Apply(records: seq<Record>, op: Op): (seq<Record>, bool) {
    match op
    case CreateOp(n, o, g, p) => Create(records, n, o, g, p)
    case ChmodOp(n, p) => Chmod(records, n, p)
    case SetOp(n, e) => SetEncrypted(records, n, e)
    case DeleteOp(n) => Delete(records, n)
  }

  /** The same operation on a map. */
  function MapApply(m: map<string, Record>, op: Op): (map<string, Record>, bool) {
    match op
    case CreateOp(n, o, g, p) =>
      if ValidPerms(p) && n !in m then (m[n := NewRecord(n, o, g, p)], true) else (m, false)
    case ChmodOp(n, p) =>
      if ValidPerms(p) && n in m then (m[n := m[n].(permissions := p)], true) else (m, false)
    case SetOp(n, e) => if n in m then (m[n := m[n].(encrypted := e)], true) else (m, false)
    case DeleteOp(n) => (m - {n}, n in m)
  }

  /** Each operation acts on the records as on the map. */
  lemma ApplyRefines(records: seq<Record>, op: Op)
    requires WellFormed(records) && |op.name| < MAX_FILENAME
    requires !op.CreateOp? ==> |records| <= REWRITE_LIMIT
    ensures var (after, ok) := Apply(records, op);
            WellFormed(after) && (MapOf(after), ok) == MapApply(MapOf(records), op)
  {
    hide MapOf, ValidPerms, Rewrite, Create, WellFormed, NewRecord;
    match op
    case CreateOp(n, o, g, p) => CreateRefines(records, n, o, g, p);
    case ChmodOp(n, p) => if ValidPerms(p) { UpdateRefines(records, n, Update(Some(p), None)); }
    case SetOp(n, e) => UpdateRefines(records, n, Update(None, Some(e)));
    case DeleteOp(n) => RemoveRefines(records, n);
  }

  function Replay(ops: seq<Op>): seq<Record> {
    if ops == [] then [] else Apply(Replay(ops[..|ops| - 1]), ops[|ops| - 1]).0
  }

  function MapReplay(ops: seq<Op>): map<string, Record> {
    if ops == [] then map[] else MapApply(MapReplay(ops[..|ops| - 1]), ops[|ops| - 1]).0
  }

  /** Over every run in which names fit and no rewrite meets more records than its limit, names
      stay unique, permissions valid, and the records stand for the map the operations make. */
  lemma {:induction false} ReplayRefines(ops: seq<Op>)
    requires forall i :: 0 <= i < |ops| ==> |ops[i].name| < MAX_FILENAME
    requires forall i :: 0 <= i < |ops| ==> ops[i].CreateOp? || |Replay(ops[..i])| <= REWRITE_LIMIT
    ensures WellFormed(Replay(ops)) && MapOf(Replay(ops)) == MapReplay(ops)
  {
    if ops == [] {
      EmptyRecords("");
    } else {
      hide MapOf, Apply, MapApply, WellFormed;
      var n := |ops| - 1;
      assert forall i :: 0 <= i < n ==> ops[..n][..i] == ops[..i];
      ReplayRefines(ops[..n]);
      ApplyRefines(Replay(ops[..n]), ops[n]);
    }
  }

  // ----- The file in place -----

  /** The metadata file: the records it holds, none when it does not exist. */
  class MetaFile {
    var records: seq<Record>

    constructor ()
      ensures records == []
    {
      records := [];
    }

    method FindFileMeta(name: string) returns (found: Option<Record>)
      ensures found == Lookup(records, name)
    {
      for i := 0 to |records|
        invariant forall j :: 0 <= j < i ==> !Named(records[j], name)
      {
        if Named(records[i], name) {
          return Some(records[i]);
        }
      }
      return None;
    }

    method CreateFileMeta(name: string, owner: string, group: string, perms: string) returns (ok: bool)
      modifies this
      ensures (records, ok) == Create(old(records), name, owner, group, perms)
    {
      hide ValidPerms, Named;
      var valid := IsValidPermString(perms);
      if !valid {
        return false;
      }
      var existing := FindFileMeta(name);
      if existing.Some? {
        return false;
      }
      records := records + [Record(Cut(name, MAX_FILENAME), Cut(owner, MAX_USERNAME),
                                   Cut(group, MAX_GROUP), perms, false)];
      return true;
    }

    /** Reads the records back up to the limit and writes them out again, the named one changed
        or left out. */
    method RewriteMatching(name: string, change: Change) returns (found: bool)
      modifies this
      ensures (records, found) == Rewrite(old(records), name, change)
    {
      hide Named;
      var loaded: seq<Record> := [];
      while |loaded| < |records| && |loaded| < REWRITE_LIMIT
        invariant loaded <= records && |loaded| <= REWRITE_LIMIT
      {
        loaded := loaded + [records[|loaded|]];
      }
      assert loaded == Loaded(records);
      found := false;
      var out: seq<Record> := [];
      for i := 0 to |loaded|
        invariant out == RewriteAll(loaded[..i], name, change)
        invariant found <==> exists j :: 0 <= j < i && Named(loaded[j], name)
      {
        assert loaded[..i + 1][..i] == loaded[..i];
        var r := loaded[i];
        if Named(r, name) {
          found := true;
          if change.Update? {
            out := out + [Changed(r, change)];
          }
        } else {
          out := out + [r];
        }
      }
      assert loaded[..|loaded|] == loaded;
      records := out;
    }

    method ChmodFile(name: string, perms: string) returns (found: bool)
      modifies this
      ensures (records, found) == Chmod(old(records), name, perms)
    {
      hide ValidPerms;
      var valid := IsValidPermString(perms);
      if !valid {
        return false;
      }
      found := RewriteMatching(name, Update(Some(perms), None));
    }

    method SetEncryptedFlag(name: string, encrypted: bool) returns (found: bool)
      modifies this
      ensures (records, found) == SetEncrypted(old(records), name, encrypted)
    {
      found := RewriteMatching(name, Update(None, Some(encrypted)));
    }

    method DeleteFileMeta(name: string) returns (found: bool)
      modifies this
      ensures (records, found) == Delete(old(records), name)
    {
      found := RewriteMatching(name, Remove);
    }
  }
}
