/** Calamares' GlobalStorage: the key-value store through which the
    installer's modules pass data to one another. */
module Calamares {
  import opened Wrappers
  import opened Variants
  import opened StringOrder

  /** Keys sorted strictly ascending, as a QMap lists them. */
  predicate StrictlySorted(ks: seq<string>)
  {
    forall i, j :: 0 <= i < j < |ks| ==> Less(ks[i], ks[j])
  }

  class GlobalStorage {
    /** The QVariantMap behind the store. */
    var m: map<string, Variant>
    /** How many times the changed() signal has been emitted. */
    ghost var changed: nat

    constructor ()
      ensures m == map[] && changed == 0
    {
      m := map[];
      changed := 0;
    }

    /** Does the store hold `key`? Tells an explicitly inserted Invalid
        value apart from a missing key. */
    predicate Contains(key: string)
      reads this
      ensures Contains(key) <==> key in m.Keys
    {
      key in m
    }

    /** The number of keys in the store. */
    function Count(): (n: int)
      reads this
      ensures n == |m.Keys|
    {
      |m|
    }

    /** The stored value, or the Invalid variant when `key` is absent. */
    function Value(key: string): (v: Variant)
      reads this
      ensures !Contains(key) ==> v == Invalid
      ensures Contains(key) ==> v == m[key]
    {
      if key in m then m[key] else Invalid
    }

    /** Stores `value` under `key`, overwriting any previous value, and
        emits changed() whether or not anything changed. */
    method Insert(key: string, value: Variant)
      modifies this
      ensures m == old(m)[key := value]
      ensures Contains(key) && Value(key) == value
      ensures forall k :: k != key ==> Contains(k) == old(Contains(k)) && Value(k) == old(Value(k))
      ensures changed == old(changed) + 1
    {
      m := m[key := value];
      changed := changed + 1;
    }

    /** Removes `key` if present (nothing else happens if it is not),
        emits changed() either way, and answers the number of keys left. */
    method Remove(key: string) returns (remaining: int)
      modifies this
      ensures m == old(m) - {key}
      ensures !Contains(key)
      ensures !old(Contains(key)) ==> m == old(m)
      ensures forall k :: k != key ==> Contains(k) == old(Contains(k)) && Value(k) == old(Value(k))
      ensures remaining == Count()
      ensures changed == old(changed) + 1
    {
      m := m - {key};
      changed := changed + 1;
      remaining := |m|;
    }

    /** A fresh list of the keys, in ascending order: exactly the keys the
        store contains, each once, so its length is Count(). */
    method Keys() returns (ks: seq<string>)
      ensures |ks| == Count()
      ensures forall k :: k in ks <==> Contains(k)
      ensures StrictlySorted(ks)
    {
      var rest := m.Keys;
      ks := [];
      while rest != {}
        invariant rest <= m.Keys
        invariant forall k :: k in ks <==> k in m && k !in rest
        invariant StrictlySorted(ks)
        invariant forall i, k :: 0 <= i < |ks| && k in rest ==> Less(ks[i], k)
        invariant |ks| + |rest| == |m|
        decreases |rest|
      {
        LeastExists(rest);
        var k :| k in rest && forall j :: j in rest && j != k ==> Less(k, j);
        ks := ks + [k];
        rest := rest - {k};
      }
    }

    /** The merge half of load(): `parsed` is the document already read and
        parsed, None when the file could not be read or is not an object.
        Every loaded key is inserted (emitting changed() once per key); the
        store is not cleared first, so other keys keep their values. */
    method Load(parsed: Option<map<string, Variant>>) returns (ok: bool)
      modifies this
      ensures ok <==> parsed.Some?
      ensures !ok ==> m == old(m) && changed == old(changed)
      ensures ok ==> m == old(m) + parsed.value
      ensures ok ==> forall k :: k in parsed.value ==> Contains(k) && Value(k) == parsed.value[k]
      ensures forall k :: (ok ==> k !in parsed.value) ==> Contains(k) == old(Contains(k)) && Value(k) == old(Value(k))
      ensures ok ==> changed == old(changed) + |parsed.value|
    {
      if parsed.None? {
        return false;
      }
      var loaded := parsed.value;
      var todo := loaded.Keys;
      var done := 0;
      while todo != {}
        invariant todo <= loaded.Keys
        invariant m == old(m) + map k | k in loaded.Keys - todo :: loaded[k]
        invariant done + |todo| == |loaded|
        invariant changed == old(changed) + done
        decreases |todo|
      {
        var k :| k in todo;
        Insert(k, loaded[k]);
        todo := todo - {k};
        done := done + 1;
      }
      assert (map k | k in loaded.Keys - todo :: loaded[k]) == loaded;
      ok := true;
    }
  }

  /** keys() hands out a copy: inserting and then removing a key leaves
      lists obtained earlier as they were. The store ends without `key`. */
  method KeysAreACopy(gs: GlobalStorage, key: string, value: Variant)
    returns (before: seq<string>, afterInsert: seq<string>, afterRemove: seq<string>)
    modifies gs
    ensures forall k :: k in before <==> k in old(gs.m)
    ensures forall k :: k in afterInsert <==> k in old(gs.m) || k == key
    ensures forall k :: k in afterRemove <==> k in old(gs.m) && k != key
    ensures gs.m == old(gs.m) - {key}
  {
    before := gs.Keys();
    gs.Insert(key, value);
    afterInsert := gs.Keys();
    var _ := gs.Remove(key);
    afterRemove := gs.Keys();
  }

  /** value() cannot tell an absent key from one explicitly set to the
      Invalid variant; only contains() can. */
  method InvalidValueOnlyContainsDistinguishes(key: string)
    returns (absentValue: Variant, presentValue: Variant, absentContained: bool, presentContained: bool)
    ensures absentValue == Invalid && presentValue == Invalid
    ensures !absentContained && presentContained
  {
    var gs := new GlobalStorage();
    absentValue := gs.Value(key);
    absentContained := gs.Contains(key);
    gs.Insert(key, Invalid);
    presentValue := gs.Value(key);
    presentContained := gs.Contains(key);
  }
}
