/**
 The cache of name-service answers: a table of 1024 entries in which a later answer overwrites
 whatever is in its slot, and entries older than a minute are not served. src/helper_dns.c.
 */
module DnsCache {
  import opened Options
  import opened Times

  const SLOTS: nat := 1024
  const CACHE_TIME: int := 60    // seconds

  /** struct hostent. */
  datatype Host = Host(name: string, addrType: int, addresses: seq<string>, aliases: seq<string>)

  /** The hash of a key; nothing below depends on which function it is. */
  type Hash = h: string -> nat | forall k :: h(k) < SLOTS witness (_: string) => 0

  datatype Entry = Entry(key: string, value: Host, saved: Timespec)

  type Table = t: seq<Option<Entry>> | |t| == SLOTS witness seq(SLOTS, _ => None)

  /** The test lookup_str makes on the age of an entry. */
  predicate Fresh(now: Timespec, saved: Timespec) {
    MsDiff(now, saved) <= CACHE_TIME * 1000
  }

  function Saved(t: Table, hash: Hash, key: string, value: Host, now: Timespec): Table {
    t[hash(key) := Some(Entry(key, value, now))]
  }

  function Answer(t: Table, hash: Hash, key: string, now: Timespec): Option<Host> {
    var e := t[hash(key)];
    if e.Some? && e.value.key == key && Fresh(now, e.value.saved) then Some(e.value.value) else None
  }

  /** A stale entry is dropped by the lookup that meets it. */
  function Looked(t: Table, hash: Hash, key: string, now: Timespec): Table {
    var e := t[hash(key)];
    if e.Some? && e.value.key == key && !Fresh(now, e.value.saved) then t[hash(key) := None] else t
  }

  class Cache {
    const hash: Hash
    const hashtab: array<Option<Entry>>

    ghost predicate Valid()
      reads this
    {
      hashtab.Length == SLOTS
    }

    ghost function Contents(): Table
      requires Valid()
      reads this, hashtab
    {
      hashtab[..]
    }

    constructor (hash: Hash)
      ensures Valid() && fresh(hashtab) && this.hash == hash && Contents() == Empty()
    {
      this.hash := hash;
      hashtab := new Option<Entry>[SLOTS](_ => None);
    }

    /** cache_str. */
    method CacheStr(key: string, value: Host, now: Timespec)
      requires Valid()
      modifies hashtab
      ensures Valid() && Contents() == Saved(old(Contents()), hash, key, value, now)
    {
      hashtab[hash(key)] := Some(Entry(key, value, now));
    }

    /** lookup_str. */
    method LookupStr(key: string, now: Timespec) returns (host: Option<Host>)
      requires Valid()
      modifies hashtab
      ensures Valid() && Contents() == Looked(old(Contents()), hash, key, now)
      ensures host == Answer(old(Contents()), hash, key, now)
    {
      var node := hashtab[hash(key)];
      if node.None? {
        return None;
      }
      if node.value.key == key {
        if MsDiff(now, node.value.saved) > CACHE_TIME * 1000 {
          hashtab[hash(key)] := None;
          return None;
        } else {
          return Some(node.value.value);
        }
      } else {
        return None;
      }
    }
  }

  // Whole runs.

  datatype Event =
    | Save(key: string, value: Host, at: Timespec)
    | Look(key: string, at: Timespec)

  function Empty(): Table {
    seq(SLOTS, _ => None)
  }

  function Run(hash: Hash, es: seq<Event>): Table {
    if es == [] then Empty() else
    var t := Run(hash, es[..|es| - 1]);
    match es[|es| - 1]
    case Save(key, value, at) => Saved(t, hash, key, value, at)
    case Look(key, at) => Looked(t, hash, key, at)
  }

  /** Event i is the last save into the slot. */
  ghost predicate Current(hash: Hash, es: seq<Event>, i: int, slot: nat) {
    && 0 <= i < |es| && es[i].Save? && hash(es[i].key) == slot
    && forall j :: i < j < |es| && es[j].Save? ==> hash(es[j].key) != slot
  }

  /** No later lookup of that key found the entry stale. */
  ghost predicate Undropped(es: seq<Event>, i: int)
    requires 0 <= i < |es| && es[i].Save?
  {
    forall j :: i < j < |es| && es[j].Look? && es[j].key == es[i].key ==> Fresh(es[j].at, es[i].at)
  }

  function EntryOf(e: Event): Entry
    requires e.Save?
  {
    Entry(e.key, e.value, e.at)
  }

  ghost predicate Explains(hash: Hash, es: seq<Event>, i: int, slot: nat, e: Entry) {
    Current(hash, es, i, slot) && EntryOf(es[i]) == e && Undropped(es, i)
  }

  /** What a slot holds after any run: the last answer saved there, unless a lookup dropped it. */
  lemma {:induction false} SlotExplained(hash: Hash, es: seq<Event>, slot: nat, e: Entry)
    requires slot < SLOTS
    ensures Run(hash, es)[slot] == Some(e) <==> exists i :: Explains(hash, es, i, slot, e)
  {
    if es != [] {
      var n := |es| - 1;
      var before := es[..n];
      SlotExplained(hash, before, slot, e);
      forall i | i != n
        ensures Explains(hash, es, i, slot, e)
            <==> Explains(hash, before, i, slot, e) && StillThere(hash, es[n], slot, e)
      {
        OneMore(hash, es, i, slot, e);
      }
      if i :| Explains(hash, before, i, slot, e) && StillThere(hash, es[n], slot, e) {
        assert Explains(hash, es, i, slot, e);
      }
      if es[n].Save? && hash(es[n].key) == slot && EntryOf(es[n]) == e {
        assert Explains(hash, es, n, slot, e);
      }
    }
  }

  /** The event neither overwrites nor drops the entry. */
  predicate StillThere(hash: Hash, event: Event, slot: nat, e: Entry) {
    match event
    case Save(key, _, _) => hash(key) != slot
    case Look(key, at) => key == e.key ==> Fresh(at, e.saved)
  }

  lemma OneMore(hash: Hash, es: seq<Event>, i: int, slot: nat, e: Entry)
    requires es != [] && i != |es| - 1
    ensures Explains(hash, es, i, slot, e)
        <==> Explains(hash, es[..|es| - 1], i, slot, e) && StillThere(hash, es[|es| - 1], slot, e)
  {
    var n := |es| - 1;
    var before := es[..n];
    if 0 <= i < n {
      assert before[i] == es[i];
      assert forall j :: 0 <= j < n ==> before[j] == es[j];
    }
  }

  /**
   Every run, every clock: a lookup answers with a host exactly when that host is what was last
   saved in the key's slot, it was saved under this key, and neither this nor an earlier lookup of
   the key finds it stale.
   */
  lemma {:induction false} AnswersExactly(hash: Hash, es: seq<Event>, key: string, now: Timespec, value: Host)
    ensures Answer(Run(hash, es), hash, key, now) == Some(value)
        <==> exists i :: Serves(hash, es, i, key, value) && Undropped(es, i) && Fresh(now, es[i].at)
  {
    var t := Run(hash, es);
    if Answer(t, hash, key, now) == Some(value) {
      var e := t[hash(key)].value;
      SlotExplained(hash, es, hash(key), e);
      var i :| Explains(hash, es, i, hash(key), e);
      assert Serves(hash, es, i, key, value);
    }
    if i :| Serves(hash, es, i, key, value) && Undropped(es, i) && Fresh(now, es[i].at) {
      assert Explains(hash, es, i, hash(key), EntryOf(es[i]));
      SlotExplained(hash, es, hash(key), EntryOf(es[i]));
    }
  }

  ghost predicate Serves(hash: Hash, es: seq<Event>, i: int, key: string, value: Host) {
    Current(hash, es, i, hash(key)) && es[i].key == key && es[i].value == value
  }

  /** Times are normalised, do not run backwards, and none is after now. */
  ghost predicate Chronological(es: seq<Event>, now: Timespec) {
    && now.Normal()
    && (forall i :: 0 <= i < |es| ==> es[i].at.Normal() && es[i].at.Ns() <= now.Ns())
    && (forall i, j :: 0 <= i < j < |es| ==> es[i].at.Ns() <= es[j].at.Ns())
  }

  lemma MsMonotone(t1: Timespec, t2: Timespec, t0: Timespec)
    requires t0.Normal() && t1.Normal() && t2.Normal() && t1.Ns() <= t2.Ns()
    ensures MsExact(t1, t0) <= MsExact(t2, t0)
  {
    assert t1.sec <= t2.sec;
  }

  /**
   On a monotone clock, and as long as what the slot was last given is less than 2^31 ms old,
   lookups never change an answer: it is the value last saved in the slot, if that was for this
   key and is at most a minute old.
   */
  lemma {:induction false} AnswersWithoutWrap(hash: Hash, es: seq<Event>, key: string, now: Timespec, value: Host)
    requires Chronological(es, now)
    requires forall i :: Current(hash, es, i, hash(key)) ==> MsExact(now, es[i].at) < 0x8000_0000
    ensures Answer(Run(hash, es), hash, key, now) == Some(value)
        <==> exists i :: Serves(hash, es, i, key, value) && MsExact(now, es[i].at) <= 60_000
  {
    AnswersExactly(hash, es, key, now, value);
    forall i | Serves(hash, es, i, key, value)
      ensures Fresh(now, es[i].at) <==> MsExact(now, es[i].at) <= 60_000
      ensures Fresh(now, es[i].at) ==> Undropped(es, i)
    {
      AgeExact(now, es[i].at);
      forall j | i < j < |es| && es[j].Look?
        ensures Fresh(now, es[i].at) ==> Fresh(es[j].at, es[i].at)
      {
        MsMonotone(es[j].at, now, es[i].at);
        AgeExact(es[j].at, es[i].at);
      }
    }
    if i :| Serves(hash, es, i, key, value) && MsExact(now, es[i].at) <= 60_000 {
      assert Undropped(es, i) && Fresh(now, es[i].at);
    }
  }

  lemma AgeExact(now: Timespec, saved: Timespec)
    requires now.Normal() && saved.Normal() && saved.Ns() <= now.Ns() && MsExact(now, saved) < 0x8000_0000
    ensures MsDiff(now, saved) == MsExact(now, saved) >= 0
  {
    MsMonotone(saved, now, saved);
    ToInt32Small(MsExact(now, saved));
  }

  /** Then whatever is served was saved less than 60.001 seconds ago. */
  lemma {:induction false} ServedIsRecent(hash: Hash, es: seq<Event>, key: string, now: Timespec, value: Host)
    returns (i: nat)
    requires Chronological(es, now)
    requires forall i :: Current(hash, es, i, hash(key)) ==> MsExact(now, es[i].at) < 0x8000_0000
    requires Answer(Run(hash, es), hash, key, now) == Some(value)
    ensures i < |es| && es[i] == Save(key, value, es[i].at) && now.Ns() - es[i].at.Ns() < 60_001 * MEGA
    ensures forall j :: i < j < |es| && es[j].Save? ==> es[j].key != key
  {
    AnswersWithoutWrap(hash, es, key, now, value);
    var k :| Serves(hash, es, k, key, value) && MsExact(now, es[k].at) <= 60_000;
    MsWithinOne(now, es[k].at);
    i := k;
  }

  /**
   The int in which ms_diff returns its result makes an old entry look fresh again: an entry of
   any age is served beyond its minute exactly when its age in milliseconds, modulo 2^32, is at
   most a minute or at least 2^31.
   */
  lemma StaleServedExactly(now: Timespec, saved: Timespec)
    requires MsExact(now, saved) > 60_000
    ensures Fresh(now, saved) <==>
      var age := MsExact(now, saved) % 0x1_0000_0000;
      age <= 60_000 || age >= 0x8000_0000
  {
    WrapSigned(MsExact(now, saved));
  }

  lemma WrapSigned(x: int)
    ensures var m := x % 0x1_0000_0000; ToInt32(x) == if m < 0x8000_0000 then m else m - 0x1_0000_0000
  {
  }

  /** Not quite 25 days after it was saved, an entry nobody looked up is served again. */
  lemma StaleServed(hash: Hash, key: string, value: Host)
    ensures var es := [Save(key, value, Timespec(0, 0))];
      Answer(Run(hash, es), hash, key, Timespec(2_147_483, 648_000_000)) == Some(value)
  {
    var saved := Timespec(0, 0);
    var es := [Save(key, value, saved)];
    assert es[..0] == [];
    assert Run(hash, es) == Saved(Empty(), hash, key, value, saved);
    assert MsExact(Timespec(2_147_483, 648_000_000), saved) == 0x8000_0000;
  }
}
