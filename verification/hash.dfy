/** `json::hash`: a map from string keys that remembers insertion order,
    kept as a list of entries searched from the front. */
module OrderedMap {

  datatype Entry<T> = Entry(key: string, val: T)

  /** The C++ `hash<T>`: its `vector()` of entries, in insertion order. */
  datatype Hash<T> = Hash(entries: seq<Entry<T>>)

  /** The keys of a list of entries, in order. */
  function KeysOf<T>(es: seq<Entry<T>>): seq<string>
  {
    seq(|es|, j requires 0 <= j < |es| => es[j].key)
  }

  function Keys<T>(h: Hash<T>): seq<string>
  {
    KeysOf(h.entries)
  }

  /** No key occurs in two entries. */
  predicate Unique<T>(h: Hash<T>)
  {
    forall j, k :: 0 <= j < k < |h.entries| ==> h.entries[j].key != h.entries[k].key
  }

  /** Offset of the first entry with `key`, or the number of entries when
      there is none: where the linear searches of `has` and `operator[]`
      stop. */
  function Find<T>(h: Hash<T>, key: string): nat
  {
    FindFrom(h, key, 0)
  }

  function FindFrom<T>(h: Hash<T>, key: string, j: nat): nat
    decreases |h.entries| - j
  {
    if j >= |h.entries| then |h.entries|
    else if h.entries[j].key == key then j
    else FindFrom(h, key, j + 1)
  }

  lemma {:induction false} FindFromSpec<T>(h: Hash<T>, key: string, j: nat)
    requires j <= |h.entries|
    ensures var k := FindFrom(h, key, j);
      && j <= k <= |h.entries|
      && (forall m :: j <= m < k ==> h.entries[m].key != key)
      && (k < |h.entries| ==> h.entries[k].key == key)
    decreases |h.entries| - j
  {
    if j < |h.entries| && h.entries[j].key != key {
      FindFromSpec(h, key, j + 1);
    }
  }

  /** `Find` stops at the first entry with the key, and reports the end
      only when no entry has it. */
  lemma FindSpec<T>(h: Hash<T>, key: string)
    ensures var k := Find(h, key);
      && k <= |h.entries|
      && (forall m :: 0 <= m < k ==> h.entries[m].key != key)
      && (k < |h.entries| ==> h.entries[k].key == key)
      && (k == |h.entries| <==> key !in Keys(h))
  {
    FindFromSpec(h, key, 0);
    var k := Find(h, key);
    if key in Keys(h) {
      var m :| 0 <= m < |Keys(h)| && Keys(h)[m] == key;
      assert h.entries[m].key == key;
    }
    if k < |h.entries| {
      assert Keys(h)[k] == key;
    }
  }

  /** `has`: whether some entry carries the key. */
  function Has<T>(h: Hash<T>, key: string): (b: bool)
  {
    Find(h, key) < |h.entries|
  }

  lemma HasSpec<T>(h: Hash<T>, key: string)
    ensures Has(h, key) <==> key in Keys(h)
    ensures Has(h, key) <==> exists j :: 0 <= j < |h.entries| && h.entries[j].key == key
  {
    FindSpec(h, key);
    if Has(h, key) {
      assert h.entries[Find(h, key)].key == key;
    }
    if exists j :: 0 <= j < |h.entries| && h.entries[j].key == key {
      var j :| 0 <= j < |h.entries| && h.entries[j].key == key;
      assert Keys(h)[j] == key;
    }
  }

  /** `operator[]` used to read: the value of the first entry with the key;
      when there is none, an entry holding `T()` (here `blank`) is appended
      first. Returns the map after the call and the value referred to. */
  function Get<T>(h: Hash<T>, key: string, blank: T): (Hash<T>, T)
  {
    var k := Find(h, key);
    if k < |h.entries| then (h, h.entries[k].val)
    else (Hash(h.entries + [Entry(key, blank)]), blank)
  }

  /** `(*this)[key] = v`: overwrites the value of the first entry with the
      key, or appends a new entry at the end. */
  function Set<T>(h: Hash<T>, key: string, v: T): Hash<T>
  {
    var k := Find(h, key);
    if k < |h.entries| then Hash(h.entries[k := Entry(key, v)])
    else Hash(h.entries + [Entry(key, v)])
  }

  /** Reading a key that is present changes nothing and gives its first
      entry's value; reading a missing key appends it with the blank
      value, leaving the other entries alone. */
  lemma GetSpec<T>(h: Hash<T>, key: string, blank: T)
    ensures var (h2, v) := Get(h, key, blank);
      && (Has(h, key) ==> h2 == h && v == h.entries[Find(h, key)].val)
      && (!Has(h, key) ==> h2.entries == h.entries + [Entry(key, blank)] && v == blank)
      && Has(h2, key) && Keys(h2) == Keys(Set(h, key, v))
  {
    FindSpec(h, key);
    var (h2, v) := Get(h, key, blank);
    var k := Find(h, key);
    HasSpec(h2, key);
    if k < |h.entries| {
      assert Keys(Set(h, key, v)) == Keys(h);
    } else {
      assert h2.entries[|h.entries|].key == key;
      assert Keys(Set(h, key, v)) == Keys(h2);
    }
  }

  /** After `Set` the key is present and reads back the stored value, and
      the key order is kept, the key being appended when it was new. Only
      the first entry with the key is written: every other entry, later
      duplicates of the key included, stays as it was. */
  lemma SetSpec<T>(h: Hash<T>, key: string, v: T, blank: T)
    ensures var h2 := Set(h, key, v);
      && Has(h2, key) && Get(h2, key, blank) == (h2, v)
      && Keys(h2) == (if Has(h, key) then Keys(h) else Keys(h) + [key])
      && |h2.entries| == |h.entries| + (if Has(h, key) then 0 else 1)
      && Find(h, key) <= |h.entries|
      && h2.entries[Find(h, key)] == Entry(key, v)
      && (forall m :: 0 <= m < |h.entries| && m != Find(h, key) ==> h2.entries[m] == h.entries[m])
  {
    var h2 := Set(h, key, v);
    FindSpec(h, key);
    FindSpec(h2, key);
    SetKeepsKeys(h, key, v);
    if Has(h, key) {
      assert Keys(h2) == Keys(h);
    } else {
      assert Keys(h2) == Keys(h) + [key];
    }
  }

  /** `Set` leaves every other key as it was. */
  lemma SetOther<T>(h: Hash<T>, key: string, v: T, other: string, blank: T)
    requires other != key
    ensures var h2 := Set(h, key, v);
      && Has(h2, other) == Has(h, other)
      && (Has(h, other) ==> Get(h2, other, blank).1 == Get(h, other, blank).1)
  {
    FindSpec(h, key);
    FindSpec(h, other);
    SetFindOther(h, key, v, other);
    if Has(h, other) {
      var f := Find(h, other);
      assert h.entries[f].key == other;
      assert Set(h, key, v).entries[f] == h.entries[f];
    }
  }

  lemma SetFindOther<T>(h: Hash<T>, key: string, v: T, other: string)
    requires other != key
    ensures Has(Set(h, key, v), other) == Has(h, other)
    ensures Has(h, other) ==> Find(Set(h, key, v), other) == Find(h, other)
  {
    var h2 := Set(h, key, v);
    FindSpec(h, other);
    FindSpec(h2, other);
    var a, b := Find(h, other), Find(h2, other);
    SetKeepsKeys(h, key, v);
    if a < |h.entries| {
      assert h2.entries[a].key == other;
    }
    if b < |h.entries| {
      assert h.entries[b].key == other;
    }
  }

  /** `Set` keeps the keys distinct. */
  lemma SetUnique<T>(h: Hash<T>, key: string, v: T)
    requires Unique(h)
    ensures Unique(Set(h, key, v))
  {
    FindSpec(h, key);
    HasSpec(h, key);
    SetKeepsKeys(h, key, v);
  }

  /** `Set` leaves the keys of the existing entries in place. */
  lemma SetKeepsKeys<T>(h: Hash<T>, key: string, v: T)
    ensures |h.entries| <= |Set(h, key, v).entries|
    ensures forall m :: 0 <= m < |h.entries| ==> Set(h, key, v).entries[m].key == h.entries[m].key
    ensures forall m :: |h.entries| <= m < |Set(h, key, v).entries| ==> Set(h, key, v).entries[m].key == key
  {
    FindSpec(h, key);
  }

  /** The initializer-list constructor: each pair in turn is stored with
      `operator[]`, so a repeated key keeps its first position and its last
      value. */
  function FromList<T>(il: seq<Entry<T>>): Hash<T>
  {
    FromListOnto(Hash([]), il)
  }

  function FromListOnto<T>(h: Hash<T>, il: seq<Entry<T>>): Hash<T>
    decreases |il|
  {
    if |il| == 0 then h
    else FromListOnto(Set(h, il[0].key, il[0].val), il[1..])
  }

  /** The last value given to `key` in `il`, if any. */
  function LastVal<T>(il: seq<Entry<T>>, key: string, blank: T): T
    decreases |il|
  {
    if |il| == 0 then blank
    else if il[|il| - 1].key == key then il[|il| - 1].val
    else LastVal(il[..|il| - 1], key, blank)
  }

  /** `ks` lists keys in the order in which `il` first mentions them. */
  predicate InFirstOrder<T>(il: seq<Entry<T>>, ks: seq<string>)
  {
    forall j, k :: 0 <= j < k < |ks| ==> Find(Hash(il), ks[j]) < Find(Hash(il), ks[k])
  }

  /** The constructed map has distinct keys, holds exactly the keys of the
      list, each where the list first mentions it, and gives every key the
      last value the list pairs it with. */
  lemma FromListSpec<T>(il: seq<Entry<T>>, key: string, blank: T)
    ensures var h := FromList(il);
      && Unique(h)
      && (Has(h, key) <==> key in KeysOf(il))
      && InFirstOrder(il, Keys(h))
      && (Has(h, key) ==> Get(h, key, blank).1 == LastVal(il, key, blank))
  {
    var empty: Hash<T> := Hash([]);
    HasSpec(empty, key);
    FromListOntoSpec(Hash([]), il, key, blank);
    FromListOrder(il);
  }

  lemma FromListHas<T>(il: seq<Entry<T>>, key: string, blank: T)
    ensures Has(FromList(il), key) <==> key in KeysOf(il)
  {
    var empty: Hash<T> := Hash([]);
    HasSpec(empty, key);
    FromListOntoSpec(Hash([]), il, key, blank);
  }

  /** Storing one more pair after a list is storing it into the map the
      list built. */
  lemma {:induction false} FromListOntoSnoc<T>(h: Hash<T>, il: seq<Entry<T>>, e: Entry<T>)
    ensures FromListOnto(h, il + [e]) == Set(FromListOnto(h, il), e.key, e.val)
    decreases |il|
  {
    if |il| == 0 {
      assert il + [e] == [e];
      assert [e][1..] == [];
    } else {
      assert (il + [e])[1..] == il[1..] + [e];
      FromListOntoSnoc(Set(h, il[0].key, il[0].val), il[1..], e);
    }
  }

  /** Appending an entry leaves the first mention of every earlier key
      where it was; a new key is first mentioned by the appended entry. */
  lemma FindAppend<T>(il: seq<Entry<T>>, e: Entry<T>, x: string)
    ensures Find(Hash(il + [e]), x) ==
      if x in KeysOf(il) then Find(Hash(il), x) else if x == e.key then |il| else |il| + 1
  {
    var h, h2 := Hash(il), Hash(il + [e]);
    FindSpec(h, x);
    FindSpec(h2, x);
    var a, b := Find(h, x), Find(h2, x);
    if a < |il| {
      assert h2.entries[a] == il[a];
    }
    if b < |il| {
      assert h2.entries[b] == il[b];
    }
    if b == |il| {
      assert h2.entries[b] == e;
    }
    if x == e.key {
      assert h2.entries[|il|].key == x;
    }
  }

  lemma {:induction false} FromListOrder<T>(il: seq<Entry<T>>)
    ensures InFirstOrder(il, Keys(FromList(il)))
    decreases |il|
  {
    if |il| > 0 {
      var init, e := il[..|il| - 1], il[|il| - 1];
      assert il == init + [e];
      var h0 := FromList(init);
      var ks0 := Keys(h0);
      FromListOntoSnoc(Hash([]), init, e);
      FromListOrder(init);
      SetSpec(h0, e.key, e.val, e.val);
      forall x | x in ks0
        ensures x in KeysOf(init) && Find(Hash(il), x) == Find(Hash(init), x) < |init|
      {
        HasSpec(h0, x);
        FromListHas(init, x, e.val);
        FindAppend(init, e, x);
        FindSpec(Hash(init), x);
      }
      FromListHas(init, e.key, e.val);
      HasSpec(h0, e.key);
      FindAppend(init, e, e.key);
      var ks := Keys(FromList(il));
      forall j, k | 0 <= j < k < |ks|
        ensures Find(Hash(il), ks[j]) < Find(Hash(il), ks[k])
      {
        assert ks[j] in ks0;
        if k < |ks0| {
          assert ks[k] in ks0;
        }
      }
    }
  }

  lemma {:induction false} FromListOntoSpec<T>(h: Hash<T>, il: seq<Entry<T>>, key: string, blank: T)
    requires Unique(h)
    ensures var h2 := FromListOnto(h, il);
      && Unique(h2)
      && (Has(h2, key) <==> Has(h, key) || key in KeysOf(il))
      && (Has(h2, key) ==>
            Get(h2, key, blank).1 == if key in KeysOf(il) then LastVal(il, key, blank) else Get(h, key, blank).1)
    decreases |il|
  {
    if |il| > 0 {
      var e := il[0];
      var h1 := Set(h, e.key, e.val);
      SetUnique(h, e.key, e.val);
      FromListOntoSpec(h1, il[1..], key, blank);
      assert il == [e] + il[1..];
      LastValCons(e, il[1..], key, blank);
      assert KeysOf(il) == [e.key] + KeysOf(il[1..]);
      if key == e.key {
        SetSpec(h, key, e.val, blank);
      } else {
        SetOther(h, e.key, e.val, key, blank);
      }
    }
  }

  lemma {:induction false} LastValCons<T>(e: Entry<T>, rest: seq<Entry<T>>, key: string, blank: T)
    ensures LastVal([e] + rest, key, blank) ==
      if key in KeysOf(rest) then LastVal(rest, key, blank)
      else if e.key == key then e.val else blank
    decreases |rest|
  {
    var l := [e] + rest;
    if |rest| > 0 {
      var init := rest[..|rest| - 1];
      assert l[|l| - 1] == rest[|rest| - 1];
      assert l[..|l| - 1] == [e] + init;
      LastValCons(e, init, key, blank);
      assert KeysOf(rest) == KeysOf(init) + [rest[|rest| - 1].key];
    } else {
      assert l[..|l| - 1] == [];
    }
  }
}
