/** The store of a message's objects: a map that is ordered by the sum of the two parts of its keys. */
module IeStores {
  import opened Bytes
  import opened ObjectCodec
  import opened Collections

  // Keys

  /** ie_object_key: an object type and a sequence number. */
  datatype Key = Key(objectType: nat, sequence: nat) {
    /** operator< compares this sum, so keys of equal sum are the same key for the map. */
    function Sum(): nat {
      objectType + sequence
    }
  }

  // The map

  /** An entry keeps the key that it was inserted with. */
  datatype Entry = Entry(key: Key, value: Object)

  type Entries = map<nat, Entry>

  function Get(m: Entries, k: Key): Option<Object> {
    if k.Sum() in m then Some(m[k.Sum()].value) else None
  }

  /** Replaces the value under an equivalent key, or inserts a new entry. */
  function Set(m: Entries, k: Key, o: Object): Entries {
    m[k.Sum() := Entry(if k.Sum() in m then m[k.Sum()].key else k, o)]
  }

  function Sequences(m: Entries, objectType: nat): set<nat> {
    set s | s in m && m[s].key.objectType == objectType :: m[s].key.sequence
  }

  /** The largest sequence number among the entries of a type, 0 if there is none. */
  function MaxSequence(m: Entries, objectType: nat): nat {
    Largest({0} + Sequences(m, objectType))
  }

  /** The key for a new object: number 1 if it is unique, else the next number of its type. */
  function KeyFor(m: Entries, o: Object): Key {
    Key(o.Type(), if o.IsUnique() then 1 else MaxSequence(m, o.Type()) + 1)
  }

  /** set_object */
  function SetObject(m: Entries, o: Object): Entries {
    Set(m, KeyFor(m, o), o)
  }

  /** The objects in the order of the map. */
  function Listing(m: Entries, sums: seq<nat>): (objects: seq<Object>)
    requires forall s :: s in sums ==> s in m
    ensures |objects| == |sums| && forall i :: 0 <= i < |sums| ==> objects[i] == m[sums[i]].value
  {
    seq(|sums|, i requires 0 <= i < |sums| => m[sums[i]].value)
  }

  // What a store means

  predicate IsUniqueType(t: nat) {
    INFORMATION_CODE <= t <= ScalarCode(LIFETIME)
  }

  /** At most one object of each unique type, and a list of IPAP messages. */
  datatype Content = Content(unique: map<nat, Object>, ipaps: seq<Object>) {
    predicate Valid() {
      && (forall t :: t in unique ==> IsUniqueType(t) && unique[t].IsUnique() && unique[t].Type() == t)
      && (forall i :: 0 <= i < |ipaps| ==> ipaps[i].Ipap?)
    }

    function Put(o: Object): Content {
      if o.IsUnique() then Content(unique[o.Type() := o], ipaps) else Content(unique, ipaps + [o])
    }

    /** The lookup that a map keyed by pairs would do. */
    function Lookup(k: Key): Option<Object> {
      if k.objectType == IPAP_MESSAGE && 1 <= k.sequence <= |ipaps| then Some(ipaps[k.sequence - 1])
      else if k.sequence == 1 && k.objectType in unique then Some(unique[k.objectType])
      else None
    }
  }

  const NOTHING := Content(map[], [])

  function UniqueSums(c: Content): (s: set<nat>)
    requires c.Valid()
  {
    set t | t in c.unique :: t + 1
  }

  function IpapSums(n: nat): (s: set<nat>)
    ensures forall k :: (k in s <==> IPAP_MESSAGE < k <= IPAP_MESSAGE + n)
  {
    if n == 0 then {} else IpapSums(n - 1) + {IPAP_MESSAGE + n}
  }

  /** The entry under a sum: unique objects have sequence number 1, IPAP messages the numbers 1, 2, and so on. */
  function EntryAt(c: Content, s: nat): Option<Entry> {
    if s > 0 && s - 1 in c.unique then Some(Entry(Key(s - 1, 1), c.unique[s - 1]))
    else if IPAP_MESSAGE < s <= IPAP_MESSAGE + |c.ipaps| then
      Some(Entry(Key(IPAP_MESSAGE, s - IPAP_MESSAGE), c.ipaps[s - IPAP_MESSAGE - 1]))
    else None
  }

  /** The store that holds a content. */
  function Repr(c: Content): Entries
    requires c.Valid()
  {
    map s | s in UniqueSums(c) + IpapSums(|c.ipaps|) && EntryAt(c, s).Some? :: EntryAt(c, s).value
  }

  lemma ReprAt(c: Content, s: nat)
    requires c.Valid()
    ensures s in Repr(c) <==> EntryAt(c, s).Some?
    ensures s in Repr(c) ==> Repr(c)[s] == EntryAt(c, s).value && Repr(c)[s].key.Sum() == s
  {
    if s > 0 && s - 1 in c.unique {
      assert s - 1 + 1 in UniqueSums(c);
    }
  }

  // Setting objects

  /** A store that holds exactly the entries of a content. */
  ghost predicate Represents(m: Entries, c: Content) {
    forall s: nat :: (s in m <==> EntryAt(c, s).Some?) && (s in m ==> m[s] == EntryAt(c, s).value)
  }

  lemma ReprRepresents(c: Content)
    requires c.Valid()
    ensures Represents(Repr(c), c)
  {
    forall s: nat ensures (s in Repr(c) <==> EntryAt(c, s).Some?) && (s in Repr(c) ==> Repr(c)[s] == EntryAt(c, s).value) {
      ReprAt(c, s);
    }
  }

  lemma MaxIpapSequence(m: Entries, c: Content)
    requires c.Valid() && Represents(m, c)
    ensures MaxSequence(m, IPAP_MESSAGE) == |c.ipaps|
  {
    var n := |c.ipaps|;
    var sequences := Sequences(m, IPAP_MESSAGE);
    assert forall q :: q in sequences ==> 0 < q <= n;
    if n > 0 {
      var s := IPAP_MESSAGE + n;
      assert EntryAt(c, s).value.key == Key(IPAP_MESSAGE, n);
      assert s in m && m[s].key.sequence in sequences;
    }
  }

  lemma OneRepresentation(m: Entries, c: Content)
    requires c.Valid() && Represents(m, c)
    ensures m == Repr(c)
  {
    ReprRepresents(c);
    assert forall s :: s in m ==> s in Repr(c) && m[s] == Repr(c)[s];
  }

  lemma PutIsValid(c: Content, o: Object)
    requires c.Valid()
    ensures c.Put(o).Valid()
  {
  }

  lemma PutAt(c: Content, o: Object, s: nat)
    requires c.Valid()
    ensures var sum := if o.IsUnique() then o.Type() + 1 else IPAP_MESSAGE + |c.ipaps| + 1;
            EntryAt(c.Put(o), s) == if s == sum then Some(Entry(Key(o.Type(), sum - o.Type()), o)) else EntryAt(c, s)
  {
  }

  lemma SetObjectRepresents(m: Entries, c: Content, o: Object)
    requires c.Valid() && Represents(m, c)
    ensures Represents(SetObject(m, o), c.Put(o))
  {
    MaxIpapSequence(m, c);
    var m' := SetObject(m, o);
    forall s: nat ensures (s in m' <==> EntryAt(c.Put(o), s).Some?) && (s in m' ==> m'[s] == EntryAt(c.Put(o), s).value) {
      PutAt(c, o, s);
    }
  }

  /** One set_object: the store stays the form of a content, and IPAP messages are numbered on without a gap. */
  lemma SetObjectRefines(c: Content, o: Object)
    requires c.Valid()
    ensures c.Put(o).Valid() && SetObject(Repr(c), o) == Repr(c.Put(o))
  {
    PutIsValid(c, o);
    var m := Repr(c);
    ReprRepresents(c);
    SetObjectRepresents(m, c, o);
    OneRepresentation(SetObject(m, o), c.Put(o));
  }

  function PutAll(c: Content, objects: seq<Object>): Content
    decreases |objects|
  {
    if objects == [] then c else PutAll(c.Put(objects[0]), objects[1..])
  }

  function SetAll(m: Entries, objects: seq<Object>): Entries
    decreases |objects|
  {
    if objects == [] then m else SetAll(SetObject(m, objects[0]), objects[1..])
  }

  /** Any sequence of set_object calls refines the map keyed by pairs. */
  lemma {:induction false} SetAllRefines(c: Content, objects: seq<Object>)
    requires c.Valid()
    ensures PutAll(c, objects).Valid() && SetAll(Repr(c), objects) == Repr(PutAll(c, objects))
    decreases |objects|
  {
    if objects != [] {
      SetObjectRefines(c, objects[0]);
      SetAllRefines(c.Put(objects[0]), objects[1..]);
    }
  }

  // Looking objects up

  /** The keys under which messages store objects. */
  predicate Registered(k: Key) {
    (IsUniqueType(k.objectType) && k.sequence == 1) || (k.objectType == IPAP_MESSAGE && k.sequence >= 1)
  }

  lemma LookupAgrees(c: Content, k: Key)
    requires c.Valid() && (Registered(k) || k.Sum() <= INFORMATION_CODE)
    ensures Get(Repr(c), k) == c.Lookup(k)
  {
    ReprAt(c, k.Sum());
  }

  function Sample(t: nat): Object
    requires IsUniqueType(t)
  {
    if t == INFORMATION_CODE then Info(0, 0, 0, 0) else Scalar(ScalarOf(t).value, 0, 0)
  }

  /** A content that has an entry under a given sum. */
  function Witness(s: nat): Content
    requires s > INFORMATION_CODE
  {
    if s <= IPAP_MESSAGE then Content(map[s - 1 := Sample(s - 1)], [])
    else Content(map[], seq(s - IPAP_MESSAGE, i => Ipap(0, [1])))
  }

  lemma WitnessDisagrees(k: Key)
    requires !Registered(k) && k.Sum() > INFORMATION_CODE
    ensures var c := Witness(k.Sum()); c.Valid() && Get(Repr(c), k) != c.Lookup(k)
  {
    ReprAt(Witness(k.Sum()), k.Sum());
  }

  /**
   * Ordering keys by their sum is harmless for exactly the keys that messages use, and for those below every object: any
   * other key finds an object of another type or number in some message.
   */
  lemma LookupAgreesExactly(k: Key)
    ensures (forall c: Content :: c.Valid() ==> Get(Repr(c), k) == c.Lookup(k)) <==> (Registered(k) || k.Sum() <= INFORMATION_CODE)
  {
    if Registered(k) || k.Sum() <= INFORMATION_CODE {
      forall c: Content | c.Valid() ensures Get(Repr(c), k) == c.Lookup(k) {
        LookupAgrees(c, k);
      }
    } else {
      WitnessDisagrees(k);
    }
  }

  // The order of the map

  /** The types of the unique objects in ascending order. */
  function Types(c: Content): seq<nat> {
    Ascending(c.unique.Keys)
  }

  function UniquesOf(c: Content, types: seq<nat>): (objects: seq<Object>)
    requires forall i :: 0 <= i < |types| ==> types[i] in c.unique
    ensures |objects| == |types| && forall i :: 0 <= i < |types| ==> objects[i] == c.unique[types[i]]
  {
    seq(|types|, i requires 0 <= i < |types| => c.unique[types[i]])
  }

  /** The objects of a message in the order of its store: the unique ones by their type, then the IPAP messages. */
  function InOrder(c: Content): seq<Object> {
    UniquesOf(c, Types(c)) + c.ipaps
  }

  function UniqueSumsOf(types: seq<nat>): (sums: seq<nat>)
    ensures |sums| == |types| && forall i :: 0 <= i < |types| ==> sums[i] == types[i] + 1
  {
    seq(|types|, i requires 0 <= i < |types| => types[i] + 1)
  }

  function IpapSumsOf(n: nat): (sums: seq<nat>)
    ensures |sums| == n && forall i :: 0 <= i < n ==> sums[i] == IPAP_MESSAGE + 1 + i
  {
    seq(n, i => IPAP_MESSAGE + 1 + i)
  }

  function SumsOf(types: seq<nat>, n: nat): (sums: seq<nat>)
    ensures |sums| == |types| + n
    ensures forall i :: 0 <= i < |sums| ==> sums[i] == if i < |types| then types[i] + 1 else IPAP_MESSAGE + 1 + (i - |types|)
  {
    UniqueSumsOf(types) + IpapSumsOf(n)
  }

  lemma SumsAscend(types: seq<nat>, n: nat)
    requires Ascends(types) && forall i :: 0 <= i < |types| ==> types[i] < IPAP_MESSAGE
    ensures Ascends(SumsOf(types, n))
  {
  }

  lemma SumIsUsed(c: Content, types: seq<nat>, i: nat)
    requires c.Valid() && IsOrder(c.unique.Keys, types) && i < |SumsOf(types, |c.ipaps|)|
    ensures var e := EntryAt(c, SumsOf(types, |c.ipaps|)[i]);
            e.Some? && e.value.value == (UniquesOf(c, types) + c.ipaps)[i]
  {
    if i < |types| {
      assert types[i] in c.unique;
    }
  }

  lemma UsedIsSum(c: Content, types: seq<nat>, s: nat)
    requires IsOrder(c.unique.Keys, types) && EntryAt(c, s).Some?
    ensures s in SumsOf(types, |c.ipaps|)
  {
    var sums := SumsOf(types, |c.ipaps|);
    if s > 0 && s - 1 in c.unique {
      assert s - 1 in types;
      var i :| 0 <= i < |types| && types[i] == s - 1;
      assert sums[i] == s;
    } else {
      assert sums[|types| + (s - IPAP_MESSAGE - 1)] == s;
    }
  }

  lemma SumsAreOrdered(m: Entries, c: Content, types: seq<nat>)
    requires c.Valid() && Represents(m, c) && IsOrder(c.unique.Keys, types)
    ensures IsOrder(m.Keys, SumsOf(types, |c.ipaps|))
  {
    var sums := SumsOf(types, |c.ipaps|);
    assert forall i :: 0 <= i < |types| ==> types[i] in c.unique && IsUniqueType(types[i]);
    SumsAscend(types, |c.ipaps|);
    forall i | 0 <= i < |sums| ensures sums[i] in m {
      SumIsUsed(c, types, i);
    }
    forall s | s in m ensures s in sums {
      UsedIsSum(c, types, s);
    }
  }

  /** Iterating over the store visits the objects in order. */
  lemma ListingOfRepr(m: Entries, c: Content)
    requires c.Valid() && Represents(m, c)
    ensures Listing(m, Ascending(m.Keys)) == InOrder(c)
  {
    var types := Types(c);
    SumsAreOrdered(m, c, types);
    var sums := SumsOf(types, |c.ipaps|);
    OneOrder(m.Keys, Ascending(m.Keys), sums);
    forall i | 0 <= i < |sums| ensures sums[i] in m && m[sums[i]].value == InOrder(c)[i] {
      SumIsUsed(c, types, i);
    }
  }

  // Copies

  /** Every entry stands where its key belongs. */
  ghost predicate InPlace(m: Entries) {
    forall s :: s in m ==> m[s].key.Sum() == s
  }

  /** The loop of the copy constructor: set some entries one by one in a new store. */
  function SetEach(m: Entries, order: seq<nat>): Entries
    requires forall i :: 0 <= i < |order| ==> order[i] in m
  {
    if order == [] then map[]
    else
      var last := m[order[|order| - 1]];
      Set(SetEach(m, order[..|order| - 1]), last.key, last.value)
  }

  function Copied(m: Entries): Entries {
    SetEach(m, Ascending(m.Keys))
  }

  lemma {:induction false} SetEachAt(m: Entries, order: seq<nat>, s: nat)
    requires InPlace(m) && forall i :: 0 <= i < |order| ==> order[i] in m
    ensures s in SetEach(m, order) <==> s in order
    ensures s in SetEach(m, order) ==> SetEach(m, order)[s] == m[s]
    decreases |order|
  {
    if order != [] {
      SetEachAt(m, order[..|order| - 1], s);
      assert order == order[..|order| - 1] + [order[|order| - 1]];
    }
  }

  /** A copy has the entries of the original, with the keys that they were inserted with. */
  lemma CopyIsSame(m: Entries)
    requires InPlace(m)
    ensures Copied(m) == m
  {
    var order := Ascending(m.Keys);
    forall s: nat ensures (s in Copied(m) <==> s in m) && (s in m ==> Copied(m)[s] == m[s]) {
      SetEachAt(m, order, s);
    }
  }

  // Equality

  function Objects(m: Entries): map<nat, Object> {
    map s | s in m :: m[s].value
  }

  /** Stores that hold equal objects belong to equal contents. */
  lemma EqualStores(c: Content, d: Content)
    requires c.Valid() && d.Valid()
    ensures Objects(Repr(c)) == Objects(Repr(d)) <==> c == d
  {
    var m, n := Repr(c), Repr(d);
    ReprRepresents(c);
    ReprRepresents(d);
    if Objects(m) == Objects(n) {
      OneContent(m, n, c, d);
    }
  }

  lemma OneContent(m: Entries, n: Entries, c: Content, d: Content)
    requires c.Valid() && d.Valid() && Represents(m, c) && Represents(n, d) && Objects(m) == Objects(n)
    ensures c == d
  {
    forall s: nat ensures EntryAt(c, s).Some? <==> EntryAt(d, s).Some? {
      assert s in Objects(m) <==> s in Objects(n);
    }
    forall s | EntryAt(c, s).Some? ensures EntryAt(c, s).value.value == EntryAt(d, s).value.value {
      assert Objects(m)[s] == Objects(n)[s];
    }
    SameObjectsSameContent(c, d);
  }

  lemma SameObjectsSameContent(c: Content, d: Content)
    requires c.Valid() && d.Valid()
    requires forall s: nat :: EntryAt(c, s).Some? <==> EntryAt(d, s).Some?
    requires forall s: nat :: EntryAt(c, s).Some? ==> EntryAt(c, s).value.value == EntryAt(d, s).value.value
    ensures c == d
  {
    forall t: nat ensures (t in c.unique <==> t in d.unique) && (t in c.unique ==> c.unique[t] == d.unique[t]) {
      assert IsUniqueType(t) ==> (EntryAt(c, t + 1).Some? <==> EntryAt(d, t + 1).Some?);
    }
    assert c.unique == d.unique;
    SameLength(c, d);
    SameLength(d, c);
    forall i | 0 <= i < |c.ipaps| ensures c.ipaps[i] == d.ipaps[i] {
      assert EntryAt(c, IPAP_MESSAGE + 1 + i).value.value == c.ipaps[i];
    }
  }

  lemma SameLength(c: Content, d: Content)
    requires c.Valid() && d.Valid() && forall s: nat :: EntryAt(c, s).Some? <==> EntryAt(d, s).Some?
    ensures |c.ipaps| <= |d.ipaps|
  {
    if |c.ipaps| > 0 {
      assert EntryAt(c, IPAP_MESSAGE + |c.ipaps|).Some?;
    }
  }

  // The class

  class IeStore {
    var entries: Entries

    ghost predicate Valid()
      reads this
    {
      InPlace(entries)
    }

    constructor ()
      ensures Valid() && entries == map[]
    {
      entries := map[];
    }

    method Size() returns (n: nat)
      ensures n == |entries|
    {
      n := |entries|;
    }

    method Lookup(k: Key) returns (o: Option<Object>)
      ensures o == Get(entries, k)
    {
      if k.Sum() in entries {
        o := Some(entries[k.Sum()].value);
      } else {
        o := None;
      }
    }

    method Insert(k: Key, o: Object)
      requires Valid()
      modifies this
      ensures Valid() && entries == Set(old(entries), k, o)
    {
      if k.Sum() in entries {
        entries := entries[k.Sum() := entries[k.Sum()].(value := o)];
      } else {
        entries := entries[k.Sum() := Entry(k, o)];
      }
    }

    method GetMaxSequence(objectType: nat) returns (result: nat)
      ensures result == MaxSequence(entries, objectType)
    {
      result := 0;
      var order := Ascending(entries.Keys);
      for i := 0 to |order|
        invariant result == 0 || result in Sequences(entries, objectType)
        invariant forall j :: 0 <= j < i && entries[order[j]].key.objectType == objectType ==>
                    entries[order[j]].key.sequence <= result
      {
        var key := entries[order[i]].key;
        if key.objectType == objectType && result <= key.sequence {
          result := key.sequence;
        }
      }
      forall s | s in entries && entries[s].key.objectType == objectType ensures entries[s].key.sequence <= result {
        assert s in order;
      }
      assert forall q :: q in Sequences(entries, objectType) ==> q <= result;
    }

    /** A deep copy: every entry is set in a new store. */
    method Copy() returns (copy: IeStore)
      requires Valid()
      ensures fresh(copy) && copy.Valid() && copy.entries == Copied(entries) == entries
    {
      copy := new IeStore();
      var order := Ascending(entries.Keys);
      for i := 0 to |order|
        invariant copy.Valid() && fresh(copy) && copy.entries == SetEach(entries, order[..i])
      {
        assert order[..i + 1][..i] == order[..i];
        copy.Insert(entries[order[i]].key, entries[order[i]].value);
      }
      assert order[..|order|] == order;
      CopyIsSame(entries);
    }

    /** Equal sizes and a comparison in one direction decide whether two stores hold the same objects. */
    method Equals(other: IeStore) returns (equal: bool)
      requires Valid() && other.Valid()
      ensures equal <==> Objects(entries) == Objects(other.entries)
    {
      AgreementIsEquality(Objects(entries), Objects(other.entries));
      assert |Objects(entries)| == |entries| && |Objects(other.entries)| == |other.entries| by {
        assert Objects(entries).Keys == entries.Keys && Objects(other.entries).Keys == other.entries.Keys;
      }
      if |entries| != |other.entries| {
        return false;
      }
      var order := Ascending(entries.Keys);
      for i := 0 to |order|
        invariant forall j :: 0 <= j < i ==>
                    order[j] in other.entries && other.entries[order[j]].value == entries[order[j]].value
      {
        var theirs := other.Lookup(entries[order[i]].key);
        if theirs.None? || theirs.value != entries[order[i]].value {
          assert order[i] in Objects(entries);
          return false;
        }
      }
      forall s | s in entries ensures s in other.entries && other.entries[s].value == entries[s].value {
        assert s in order;
      }
      return true;
    }
  }
}
