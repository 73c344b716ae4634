/** A secondary index over a table: `held` gives each live record's key, `index` maps keys to record ids.
    Every hash of the AMF context, and the TMGI index of the multicast context, is maintained by the same two
    moves: give a record a key (dropping its old entry), and forget a record (dropping its entry). */
module HashIndex {
  import opened Wrappers

  /** Every entry points to a live record that carries exactly that key. */
  ghost predicate Sound<K(!new)>(held: map<nat, K>, index: map<K, nat>) {
    forall k :: k in index ==> index[k] in held && held[index[k]] == k
  }

  /** Every live record with a key is found under it. */
  ghost predicate Complete<K>(held: map<nat, K>, index: map<K, nat>) {
    forall i :: i in held ==> held[i] in index && index[held[i]] == i
  }

  function KeyOf<K>(held: map<nat, K>, id: nat): Option<K> {
    if id in held then Some(held[id]) else None
  }

  function Without<K(==)>(index: map<K, nat>, key: Option<K>): map<K, nat> {
    if key.Some? then index - {key.value} else index
  }

  /** The index after record `id`, so far under `former`, is given `key`. */
  function Rekeyed<K(==)>(index: map<K, nat>, former: Option<K>, id: nat, key: K): map<K, nat> {
    Without(index, former)[key := id]
  }

  /** The records a scan of the whole table finds under a key. */
  ghost function Holders<K>(held: map<nat, K>, key: K): set<nat> {
    set i | i in held && held[i] == key
  }

  lemma RekeySound<K(!new)>(held: map<nat, K>, index: map<K, nat>, id: nat, key: K)
    requires Sound(held, index)
    ensures Sound(held[id := key], Rekeyed(index, KeyOf(held, id), id, key))
  {
  }

  lemma ForgetSound<K(!new)>(held: map<nat, K>, index: map<K, nat>, id: nat)
    requires Sound(held, index)
    ensures Sound(held - {id}, Without(index, KeyOf(held, id)))
  {
  }

  /** A record that appears without a key of its own in the index leaves the index sound. */
  lemma GrowSound<K(!new)>(held: map<nat, K>, index: map<K, nat>, id: nat, key: K)
    requires Sound(held, index) && id !in held
    ensures Sound(held[id := key], index)
  {
  }

  /** Giving a key keeps an exact index exact if and only if no other live record holds that key. */
  lemma RekeyComplete<K(!new)>(held: map<nat, K>, index: map<K, nat>, id: nat, key: K)
    requires Sound(held, index) && Complete(held, index)
    ensures Complete(held[id := key], Rekeyed(index, KeyOf(held, id), id, key))
            <==> forall i :: i in held && i != id ==> held[i] != key
  {
    var held', index' := held[id := key], Rekeyed(index, KeyOf(held, id), id, key);
    if Complete(held', index') {
      forall i | i in held && i != id
        ensures held[i] != key
      {
        assert i in held';
      }
    }
  }

  lemma ForgetComplete<K(!new)>(held: map<nat, K>, index: map<K, nat>, id: nat)
    requires Sound(held, index) && Complete(held, index)
    ensures Complete(held - {id}, Without(index, KeyOf(held, id)))
  {
    forall i | i in held && i != id
      ensures held[i] in Without(index, KeyOf(held, id))
    {
      assert index[held[i]] == i;
    }
  }

  /** Replacing a record behind the index's back keeps the index sound if and only if the record still carries
      every key the index files it under. */
  lemma RewriteSound<K(!new)>(held: map<nat, K>, held': map<nat, K>, index: map<K, nat>, id: nat)
    requires Sound(held, index)
    requires forall i :: i != id ==> KeyOf(held', i) == KeyOf(held, i)
    ensures Sound(held', index) <==> forall k :: k in index && index[k] == id ==> KeyOf(held', id) == Some(k)
  {
    forall k | k in index && index[k] != id
      ensures index[k] in held' && held'[index[k]] == k
    {
      assert KeyOf(held', index[k]) == KeyOf(held, index[k]);
    }
  }

  /** With a sound and complete index, looking a key up is scanning the table for it: an entry names the only
      holder, and no entry means no holder. */
  lemma LookupIsScan<K(!new)>(held: map<nat, K>, index: map<K, nat>, key: K)
    requires Sound(held, index) && Complete(held, index)
    ensures Holders(held, key) == if key in index then {index[key]} else {}
  {
  }
}
