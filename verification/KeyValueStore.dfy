/** The server's key-value store: an array of slots, proved to act as a bounded map. */
module KeyValueStore {
  import opened CStrings
  import opened Options

  datatype Slot = Slot(key: string, value: string, used: bool)

  /** The sizes of the key, value and list buffers, the terminating NUL included. */
  datatype Limits = Limits(key: nat, value: nat, list: nat)

  type Sizes = z: Limits | z.key >= 1 && z.value >= 1 && z.list >= 1 witness Limits(1, 1, 1)

  const SERVER_SIZES: Sizes := Limits(64, 400, 512)
  const MAX_STORE: nat := 128

  // ----- The operations on the slots -----

  predicate Matches(slot: Slot, key: string) {
    slot.used && slot.key == key
  }

  /** The first slot that holds the key, or the number of slots. */
  function Find(slots: seq<Slot>, key: string): (r: nat)
    ensures r <= |slots| && (r < |slots| ==> Matches(slots[r], key))
    ensures forall j :: 0 <= j < r ==> !Matches(slots[j], key)
  {
    if slots == [] then 0
    else if Matches(slots[0], key) then 0
    else
      var rest := slots[1..];
      assert forall j :: 1 <= j < |slots| ==> slots[j] == rest[j - 1];
      1 + Find(rest, key)
  }

  /** The first slot not in use, or the number of slots. */
  function FirstFree(slots: seq<Slot>): (r: nat)
    ensures r <= |slots| && (r < |slots| ==> !slots[r].used)
    ensures forall j :: 0 <= j < r ==> slots[j].used
  {
    if slots == [] then 0
    else if !slots[0].used then 0
    else
      var rest := slots[1..];
      assert forall j :: 1 <= j < |slots| ==> slots[j] == rest[j - 1];
      1 + FirstFree(rest)
  }

  function Put(z: Sizes, slots: seq<Slot>, key: string, value: string): (r: (seq<Slot>, bool))
    ensures |r.0| == |slots|
  {
    var i, f := Find(slots, key), FirstFree(slots);
    if i < |slots| then (slots[i := slots[i].(value := Cut(value, z.value))], true)
    else if f < |slots| then (slots[f := Slot(Cut(key, z.key), Cut(value, z.value), true)], true)
    else (slots, false)
  }

  function Get(slots: seq<Slot>, key: string): Option<string> {
    var i := Find(slots, key);
    if i < |slots| then Some(slots[i].value) else None
  }

  function Del(slots: seq<Slot>, key: string): (r: (seq<Slot>, bool))
    ensures |r.0| == |slots|
  {
    var i := Find(slots, key);
    if i < |slots| then (slots[i := slots[i].(used := false)], true) else (slots, false)
  }

  /** The keys in use written one after the other into a buffer of the given size, stopping at
      the first that does not fit whole: how many keys were begun, and the text left. */
  function List(slots: seq<Slot>, room: nat): (r: (nat, string))
    requires room >= 1
    ensures |r.1| < room
  {
    if slots == [] then (0, "")
    else if !slots[0].used then List(slots[1..], room)
    else
      var piece := slots[0].key + " ";
      if |piece| >= room then (1, piece[..room - 1])
      else
        var rest := List(slots[1..], room - |piece|);
        (1 + rest.0, piece + rest.1)
  }

  /** The count and the text in the buffer after a list, given the text that was in it: with no
      key in use nothing is written. */
  function Listing(slots: seq<Slot>, room: nat, prior: string): (nat, string)
    requires room >= 1
  {
    var (count, text) := List(slots, room);
    (count, if count == 0 then prior else text)
  }

  // ----- The map the slots stand for -----

  ghost function Keys(slots: seq<Slot>): set<string> {
    set i | 0 <= i < |slots| && slots[i].used :: slots[i].key
  }

  ghost function MapOf(slots: seq<Slot>): (m: map<string, string>)
    ensures m.Keys == Keys(slots)
  {
    map k | k in Keys(slots) :: slots[Locate(slots, k)].value
  }

  ghost function Locate(slots: seq<Slot>, key: string): (i: nat)
    requires key in Keys(slots)
    ensures i == Find(slots, key) && i < |slots|
  {
    InKeys(slots, key);
    Find(slots, key)
  }

  lemma InKeys(slots: seq<Slot>, key: string)
    ensures key in Keys(slots) <==> Find(slots, key) < |slots|
  {
    var i := Find(slots, key);
    if i < |slots| {
      assert slots[i].used;
    }
  }

  /** No two used slots share a key. */
  ghost predicate Unique(slots: seq<Slot>) {
    forall i, j :: 0 <= i < j < |slots| && slots[i].used && slots[j].used ==> slots[i].key != slots[j].key
  }

  ghost predicate KeysFit(z: Sizes, slots: seq<Slot>) {
    forall i :: 0 <= i < |slots| && slots[i].used ==> |slots[i].key| < z.key
  }

  ghost predicate Valid(z: Sizes, slots: seq<Slot>) {
    Unique(slots) && KeysFit(z, slots)
  }

  function Used(slots: seq<Slot>): (n: nat)
    ensures n <= |slots|
  {
    if slots == [] then 0 else Used(slots[1..]) + if slots[0].used then 1 else 0
  }

  lemma {:induction false} FreeSlot(slots: seq<Slot>)
    ensures FirstFree(slots) < |slots| <==> Used(slots) < |slots|
  {
    if slots != [] {
      FreeSlot(slots[1..]);
    }
  }

  lemma {:induction false} KeyCount(slots: seq<Slot>)
    requires Unique(slots)
    ensures |Keys(slots)| == Used(slots)
  {
    if slots == [] {
      assert Keys(slots) == {};
    } else {
      var rest := slots[1..];
      assert forall i :: 1 <= i < |slots| ==> slots[i] == rest[i - 1];
      KeyCount(rest);
      KeysOfRest(slots);
    }
  }

  lemma KeysOfRest(slots: seq<Slot>)
    requires slots != [] && Unique(slots)
    ensures var rest := Keys(slots[1..]);
            && (slots[0].used ==> slots[0].key !in rest)
            && Keys(slots) == if slots[0].used then rest + {slots[0].key} else rest
  {
    var rest := slots[1..];
    forall k | k in Keys(slots) ensures k in Keys(rest) || (slots[0].used && k == slots[0].key) {
      var i :| 0 <= i < |slots| && slots[i].used && slots[i].key == k;
      assert i > 0 ==> rest[i - 1] == slots[i];
    }
    forall k | k in Keys(rest) ensures k in Keys(slots) {
      var i :| 0 <= i < |rest| && rest[i].used && rest[i].key == k;
      assert slots[i + 1] == rest[i];
    }
  }

  lemma UniqueFind(slots: seq<Slot>, i: nat)
    requires Unique(slots) && i < |slots| && slots[i].used
    ensures Find(slots, slots[i].key) == i
  {
  }

  /** Where a key is found in slots of which one was replaced. */
  lemma FindAfter(slots: seq<Slot>, i: nat, slot: Slot, key: string)
    requires Unique(slots) && i < |slots|
    requires !slots[i].used || (slot.used ==> slot.key == slots[i].key)
    requires slot.used ==> Find(slots, slot.key) in {i, |slots|}
    ensures var after := slots[i := slot];
            Unique(after) && Find(after, key) ==
              if Matches(slot, key) then i
              else if Find(slots, key) == i then |slots| else Find(slots, key)
  {
    var after := slots[i := slot];
    assert Unique(after);
    var f, g := Find(slots, key), Find(after, key);
    if g < |after| {
      UniqueFind(after, g);
    }
    if f < |slots| && f != i {
      assert after[f] == slots[f];
      UniqueFind(after, f);
    }
    if Matches(slot, key) {
      assert after[i] == slot;
      UniqueFind(after, i);
    }
  }

  // ----- Each operation acts on the map -----

  lemma GetRefines(slots: seq<Slot>, key: string)
    ensures var m := MapOf(slots);
            Get(slots, key) == if key in m then Some(m[key]) else None
  {
    InKeys(slots, key);
  }

  /** Two slot arrays in which every key reads the same stand for the same map. */
  lemma SameReads(slots: seq<Slot>, m: map<string, string>)
    requires forall k :: Get(slots, k) == if k in m then Some(m[k]) else None
    ensures MapOf(slots) == m
  {
    hide Get, MapOf, Keys;
    forall k ensures k in MapOf(slots) <==> k in m {
      GetRefines(slots, k);
      assert Get(slots, k) == if k in m then Some(m[k]) else None;
    }
    forall k | k in m ensures MapOf(slots)[k] == m[k] {
      GetRefines(slots, k);
      assert Get(slots, k) == if k in m then Some(m[k]) else None;
    }
  }

  /** Storing succeeds exactly when the key is there or the map is below capacity; it then sets
      the key, and otherwise changes nothing. */
  lemma PutRefines(z: Sizes, slots: seq<Slot>, key: string, value: string)
    requires Valid(z, slots) && |key| < z.key
    ensures var (after, ok) := Put(z, slots, key, value);
            var m := MapOf(slots);
            && Valid(z, after)
            && (ok <==> key in m || |m| < |slots|)
            && MapOf(after) == (if ok then m[key := Cut(value, z.value)] else m)
            && (!ok ==> after == slots)
  {
    var (after, ok) := Put(z, slots, key, value);
    var m := MapOf(slots);
    InKeys(slots, key);
    KeyCount(slots);
    FreeSlot(slots);
    assert |m| == |m.Keys|;
    if ok {
      PutReads(z, slots, key, value);
      SameReads(after, m[key := Cut(value, z.value)]);
    }
  }

  lemma PutReads(z: Sizes, slots: seq<Slot>, key: string, value: string)
    requires Valid(z, slots) && |key| < z.key && Put(z, slots, key, value).1
    ensures var after, m := Put(z, slots, key, value).0, MapOf(slots)[key := Cut(value, z.value)];
            Valid(z, after) && forall k :: Get(after, k) == if k in m then Some(m[k]) else None
  {
    hide MapOf;
    var after := Put(z, slots, key, value).0;
    var i := if Find(slots, key) < |slots| then Find(slots, key) else FirstFree(slots);
    var slot := after[i];
    assert after == slots[i := slot];
    FindAfter(slots, i, slot, key);
    var m := MapOf(slots)[key := Cut(value, z.value)];
    forall k ensures Get(after, k) == if k in m then Some(m[k]) else None {
      FindAfter(slots, i, slot, k);
      GetRefines(slots, k);
    }
  }

  /** Deleting removes the key, and reports whether it was there. */
  lemma DelRefines(z: Sizes, slots: seq<Slot>, key: string)
    requires Valid(z, slots)
    ensures var (after, ok) := Del(slots, key);
            var m := MapOf(slots);
            && Valid(z, after)
            && ok == (key in m)
            && MapOf(after) == m - {key}
  {
    var (after, ok) := Del(slots, key);
    var m := MapOf(slots);
    InKeys(slots, key);
    if ok {
      DelReads(z, slots, key);
      SameReads(after, m - {key});
    }
  }

  lemma DelReads(z: Sizes, slots: seq<Slot>, key: string)
    requires Valid(z, slots) && Del(slots, key).1
    ensures var after, m := Del(slots, key).0, MapOf(slots) - {key};
            Valid(z, after) && forall k :: Get(after, k) == if k in m then Some(m[k]) else None
  {
    hide MapOf;
    var after, m, i := Del(slots, key).0, MapOf(slots) - {key}, Find(slots, key);
    FindAfter(slots, i, after[i], key);
    forall k ensures Get(after, k) == if k in m then Some(m[k]) else None {
      FindAfter(slots, i, after[i], k);
      GetRefines(slots, k);
    }
  }

  /** Where a value is stored: in the first slot in use for the key, and when there is none, in the
      first slot not in use. */
  lemma PutPlace(z: Sizes, slots: seq<Slot>, key: string, value: string, j: nat)
    requires j < |slots|
    ensures slots[j].used && slots[j].key == key
            && (forall i :: 0 <= i < j ==> !(slots[i].used && slots[i].key == key))
            ==> Put(z, slots, key, value) == (slots[j := Slot(key, Cut(value, z.value), true)], true)
    ensures !slots[j].used && (forall i :: 0 <= i < j ==> slots[i].used)
            && (forall i :: 0 <= i < |slots| ==> !(slots[i].used && slots[i].key == key))
            ==> Put(z, slots, key, value) == (slots[j := Slot(Cut(key, z.key), Cut(value, z.value), true)], true)
  {
    hide Cut;
    var f, g := Find(slots, key), FirstFree(slots);
    assert f < |slots| ==> Matches(slots[f], key);
    assert forall i :: 0 <= i < f ==> !Matches(slots[i], key);
  }

  /** With a key of any length, storing keeps keys unique exactly unless it cuts the key down to
      one already there. */
  lemma PutKeepsUniqueExactly(z: Sizes, slots: seq<Slot>, key: string, value: string)
    requires Valid(z, slots)
    ensures Unique(Put(z, slots, key, value).0)
       <==> (|key| < z.key || Used(slots) == |slots| || Find(slots, Cut(key, z.key)) == |slots|)
  {
    var (after, ok) := Put(z, slots, key, value);
    var i, f, cut := Find(slots, key), FirstFree(slots), Cut(key, z.key);
    FreeSlot(slots);
    if |key| < z.key {
      PutRefines(z, slots, key, value);
    } else {
      assert i == |slots|;
      if f < |slots| {
        var c := Find(slots, cut);
        if c == |slots| {
          FindAfter(slots, f, after[f], key);
        } else {
          assert after[c] == slots[c] && after[c].key == after[f].key;
        }
      }
    }
  }

  /** Storing twice under a key of 64 characters fills two slots with the same shorter key. */
  lemma StoredTwice(value: string)
    ensures var key, free := seq(64, _ => 'k'), Slot("", "", false);
            !Unique(Put(SERVER_SIZES, Put(SERVER_SIZES, [free, free], key, value).0, key, value).0)
  {
    var key, free := seq(64, _ => 'k'), Slot("", "", false);
    var slot := Slot(Cut(key, 64), Cut(value, 400), true);
    assert Find([free, free], key) == 2 && FirstFree([free, free]) == 0;
    var once := [slot, free];
    assert [free, free][0 := slot] == once;
    assert Find(once, key) == 2 && FirstFree(once) == 1;
    var twice := once[1 := slot];
    assert twice[0].key == twice[1].key;
  }

  /** The keys in use, in slot order, each followed by a space. */
  function Joined(slots: seq<Slot>): string {
    if slots == [] then ""
    else if slots[0].used then slots[0].key + " " + Joined(slots[1..])
    else Joined(slots[1..])
  }

  /** The list is the joined keys, cut to the buffer; when they fit, the count is the map's size. */
  lemma {:induction false} ListMeans(slots: seq<Slot>, room: nat)
    requires room >= 1
    ensures var (count, text) := List(slots, room);
            var all := Joined(slots);
            && text == (if |all| < room then all else all[..room - 1])
            && count <= Used(slots)
            && (|all| < room ==> count == Used(slots))
  {
    if slots != [] {
      if !slots[0].used {
        ListMeans(slots[1..], room);
      } else {
        var piece := slots[0].key + " ";
        if |piece| < room {
          ListMeans(slots[1..], room - |piece|);
        }
      }
    }
  }

  /** How far a list has come when the scan is at slot i. */
  ghost predicate ListOk(room: nat, base: seq<Slot>, i: nat, count: nat, text: string)
    requires i <= |base| && |text| < room
  {
    var rest := List(base[i..], room - |text|);
    List(base, room) == (count + rest.0, text + rest.1)
  }

  lemma ListStarts(room: nat, base: seq<Slot>)
    requires room >= 1
    ensures ListOk(room, base, 0, 0, "")
  {
    assert base[0..] == base && "" + List(base, room).1 == List(base, room).1;
  }

  lemma ListNext(room: nat, base: seq<Slot>, i: nat, count: nat, text: string)
    requires i < |base| && |text| < room && ListOk(room, base, i, count, text)
    ensures var piece := base[i].key + " ";
            if !base[i].used then ListOk(room, base, i + 1, count, text)
            else if |piece| + |text| >= room then List(base, room) == (count + 1, (text + piece)[..room - 1])
            else ListOk(room, base, i + 1, count + 1, text + piece)
  {
    var piece := base[i].key + " ";
    assert base[i..][1..] == base[i + 1..];
    if base[i].used {
      if |piece| + |text| >= room {
        assert (text + piece)[..room - 1] == text + piece[..room - 1 - |text|];
      } else {
        var rest := List(base[i + 1..], room - |text| - |piece|);
        assert text + (piece + rest.1) == (text + piece) + rest.1;
      }
    }
  }

  lemma ListEnds(room: nat, base: seq<Slot>, count: nat, text: string)
    requires |text| < room && ListOk(room, base, |base|, count, text)
    ensures List(base, room) == (count, text)
  {
    assert base[|base|..] == [] && text + "" == text;
  }

  lemma {:induction false} NothingListed(slots: seq<Slot>, room: nat)
    requires room >= 1
    ensures List(slots, room).0 == 0 <==> Used(slots) == 0
  {
    if slots != [] && !slots[0].used {
      NothingListed(slots[1..], room);
    }
  }

  /** What a list leaves in the buffer is decided by the store exactly when some slot is in use. */
  lemma ListDecided(slots: seq<Slot>, room: nat)
    requires room >= 1
    ensures (forall p, q :: Listing(slots, room, p) == Listing(slots, room, q)) <==> Used(slots) > 0
  {
    NothingListed(slots, room);
    if Used(slots) == 0 {
      assert Listing(slots, room, "").1 != Listing(slots, room, "x").1;
    }
  }

  // ----- Runs of operations -----

  datatype Op = PutOp(key: string, value: string) | GetOp(key: string) | DelOp(key: string) | ListOp(prior: string)

  datatype Result = Done(ok: bool) | Read(found: Option<string>) | Listed(count: nat, text: string)

  function Apply(z: Sizes, slots: seq<Slot>, op: Op): (r: (seq<Slot>, Result))
    ensures |r.0| == |slots|
  {
    match op
    case PutOp(k, v) => var (after, ok) := Put(z, slots, k, v); (after, Done(ok))
    case GetOp(k) => (slots, Read(Get(slots, k)))
    case DelOp(k) => var (after, ok) := Del(slots, k); (after, Done(ok))
    case ListOp(prior) => var (count, text) := Listing(slots, z.list, prior); (slots, Listed(count, text))
  }

  function Replay(z: Sizes, slots: seq<Slot>, ops: seq<Op>): (r: seq<Slot>)
    ensures |r| == |slots|
  {
    if ops == [] then slots
    else
      var n := |ops| - 1;
      Apply(z, Replay(z, slots, ops[..n]), ops[n]).0
  }

  /** A map that holds at most cap keys. */
  function MapApply(z: Sizes, cap: nat, m: map<string, string>, op: Op): map<string, string> {
    match op
    case PutOp(k, v) => if k in m || |m| < cap then m[k := Cut(v, z.value)] else m
    case GetOp(_) => m
    case DelOp(k) => m - {k}
    case ListOp(_) => m
  }

  function MapReplay(z: Sizes, cap: nat, ops: seq<Op>): map<string, string> {
    if ops == [] then map[]
    else
      var n := |ops| - 1;
      MapApply(z, cap, MapReplay(z, cap, ops[..n]), ops[n])
  }

  predicate ShortKeys(z: Sizes, ops: seq<Op>) {
    forall i :: 0 <= i < |ops| && ops[i].PutOp? ==> |ops[i].key| < z.key
  }

  predicate AllFree(slots: seq<Slot>) {
    forall i :: 0 <= i < |slots| ==> !slots[i].used
  }

  /** From an empty store, every run of operations keeps keys unique and the slots standing for
      the bounded map that the same operations make. */
  lemma {:induction false} ReplayRefines(z: Sizes, slots: seq<Slot>, ops: seq<Op>)
    requires AllFree(slots) && ShortKeys(z, ops)
    ensures var after := Replay(z, slots, ops);
            Valid(z, after) && MapOf(after) == MapReplay(z, |slots|, ops)
  {
    if ops == [] {
      assert Keys(slots) == {};
    } else {
      hide MapOf, Keys, Put, Get, Del, List, Valid;
      var n := |ops| - 1;
      ReplayRefines(z, slots, ops[..n]);
      var before := Replay(z, slots, ops[..n]);
      match ops[n]
      case PutOp(k, v) => PutRefines(z, before, k, v);
      case DelOp(k) => DelRefines(z, before, k);
      case _ =>
    }
  }

  ghost predicate ValuesFit(z: Sizes, slots: seq<Slot>) {
    forall i :: 0 <= i < |slots| && slots[i].used ==> |slots[i].value| < z.value
  }

  /** From an empty store, no read ever gives more than a value buffer holds, whatever was stored. */
  lemma {:induction false} ReadsFit(z: Sizes, slots: seq<Slot>, ops: seq<Op>, key: string)
    requires AllFree(slots)
    ensures var after := Replay(z, slots, ops);
            ValuesFit(z, after) && (Get(after, key).Some? ==> |Get(after, key).value| < z.value)
  {
    if ops != [] {
      hide Find, FirstFree, List;
      var n := |ops| - 1;
      ReadsFit(z, slots, ops[..n], key);
      assert ValuesFit(z, Apply(z, Replay(z, slots, ops[..n]), ops[n]).0);
    }
  }

  /** The operation neither stores nor deletes the key. */
  predicate Spares(op: Op, key: string) {
    (op.PutOp? || op.DelOp?) ==> op.key != key
  }

  lemma SparedReads(z: Sizes, slots: seq<Slot>, op: Op, key: string)
    requires Valid(z, slots) && Spares(op, key) && (op.PutOp? ==> |op.key| < z.key)
    ensures var after := Apply(z, slots, op).0;
            Valid(z, after) && Get(after, key) == Get(slots, key)
  {
    hide MapOf, Keys, Put, Get, Del, List, Valid;
    var after := Apply(z, slots, op).0;
    GetRefines(slots, key);
    GetRefines(after, key);
    match op
    case PutOp(k, v) => PutRefines(z, slots, k, v);
    case DelOp(k) => DelRefines(z, slots, k);
    case _ =>
  }

  lemma {:induction false} SparedRun(z: Sizes, slots: seq<Slot>, ops: seq<Op>, key: string)
    requires Valid(z, slots) && ShortKeys(z, ops)
    requires forall i :: 0 <= i < |ops| ==> Spares(ops[i], key)
    ensures var after := Replay(z, slots, ops);
            Valid(z, after) && Get(after, key) == Get(slots, key)
  {
    if ops != [] {
      hide Apply, Get, Valid;
      var n := |ops| - 1;
      SparedRun(z, slots, ops[..n], key);
      SparedReads(z, Replay(z, slots, ops[..n]), ops[n], key);
    }
  }

  /** After storing, and any operations that spare the key, reading gives the stored value exactly
      when storing did not fail, and otherwise finds nothing. */
  lemma StoredIsRead(z: Sizes, slots: seq<Slot>, key: string, value: string, later: seq<Op>)
    requires Valid(z, slots) && ShortKeys(z, later) && |key| < z.key
    requires forall i :: 0 <= i < |later| ==> Spares(later[i], key)
    ensures var (stored, ok) := Put(z, slots, key, value);
            Get(Replay(z, stored, later), key) == if ok then Some(Cut(value, z.value)) else None
  {
    hide MapOf, Keys, Get, Replay, Valid;
    var (stored, ok) := Put(z, slots, key, value);
    PutRefines(z, slots, key, value);
    GetRefines(stored, key);
    SparedRun(z, stored, later, key);
  }

  // ----- The slots in place -----

  class Store {
    const slots: array<Slot>

    constructor (n: nat)
      ensures fresh(slots) && slots.Length == n && AllFree(slots[..])
    {
      slots := new Slot[n](_ => Slot("", "", false));
    }

    method PutKey(z: Sizes, key: string, value: string) returns (ok: bool)
      modifies slots
      ensures (slots[..], ok) == Put(z, old(slots[..]), key, value)
    {
      hide Cut;
      var freeSlot := -1;
      ghost var before := slots[..];
      for i := 0 to slots.Length
        invariant slots[..] == before
        invariant forall j :: 0 <= j < i ==> !Matches(before[j], key)
        invariant if freeSlot == -1 then forall j :: 0 <= j < i ==> before[j].used
                  else 0 <= freeSlot < i && freeSlot == FirstFree(before)
      {
        if slots[i].used && slots[i].key == key {
          assert Matches(before[i], key) && Find(before, key) == i;
          slots[i] := slots[i].(value := Cut(value, z.value));
          return true;
        }
        if !slots[i].used && freeSlot == -1 {
          freeSlot := i;
        }
      }
      assert Find(before, key) == |before|;
      if freeSlot == -1 {
        return false;
      }
      slots[freeSlot] := slots[freeSlot].(key := Cut(key, z.key));
      slots[freeSlot] := slots[freeSlot].(value := Cut(value, z.value));
      slots[freeSlot] := slots[freeSlot].(used := true);
      assert slots[..] == before[freeSlot := Slot(Cut(key, z.key), Cut(value, z.value), true)];
      return true;
    }

    method GetKey(key: string) returns (found: Option<string>)
      ensures found == Get(slots[..], key)
    {
      for i := 0 to slots.Length
        invariant forall j :: 0 <= j < i ==> !Matches(slots[j], key)
      {
        if slots[i].used && slots[i].key == key {
          return Some(slots[i].value);
        }
      }
      return None;
    }

    method DelKey(key: string) returns (ok: bool)
      modifies slots
      ensures (slots[..], ok) == Del(old(slots[..]), key)
    {
      for i := 0 to slots.Length
        invariant slots[..] == old(slots[..])
        invariant forall j :: 0 <= j < i ==> !Matches(slots[j], key)
      {
        if slots[i].used && slots[i].key == key {
          slots[i] := slots[i].(used := false);
          return true;
        }
      }
      return false;
    }

    /** Writes into a buffer of the given size that held the text prior. */
    method ListKeys(room: nat, prior: string) returns (count: nat, text: string)
      requires room >= 1
      ensures (count, text) == Listing(slots[..], room, prior)
    {
      hide List, ListOk;
      var offset: nat := 0;
      ghost var written := "";
      count, text := 0, prior;
      ListStarts(room, slots[..]);
      for i := 0 to slots.Length
        invariant offset == |written| < room && offset <= |text| && written == text[..offset]
        invariant if count == 0 then text == prior else text == written
        invariant ListOk(room, slots[..], i, count, written)
      {
        ListNext(room, slots[..], i, count, written);
        if slots[i].used {
          count := count + 1;
          var piece := slots[i].key + " ";
          if |piece| >= room - offset {
            text := text[..offset] + piece[..room - offset - 1];
            assert text == (written + piece)[..room - 1];
            return;
          }
          text := text[..offset] + piece;
          written := written + piece;
          offset := offset + |piece|;
        }
      }
      ListEnds(room, slots[..], count, written);
    }
  }
}
