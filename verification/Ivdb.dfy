/** The hash table of map/map.c; the values are the `file_size` fields of its `value_db` records. */
module IvdbMap {

  import opened Wrappers

  /** A table without the entry for `key`. */
  function Without(m: map<string, nat>, key: string): map<string, nat> {
    map k | k in m && k != key :: m[k]
  }

  /** What `move_key` leaves: inserting comes before removing, so moving a key to itself removes it. */
  function Moved(m: map<string, nat>, from: string, to: string): map<string, nat> {
    if from in m then Without(m[to := m[from]], from) else m
  }

  class Ivdb {
    var hash: map<string, nat>

    constructor ()
      ensures hash == map[]
    {
      hash := map[];
    }

    method HashContainsKey(key: string) returns (contains: bool)
      ensures contains <==> key in hash
    {
      contains := key in hash;
    }

    method HashPut(key: string, value: nat)
      modifies this
      ensures hash == old(hash)[key := value]
    {
      hash := hash[key := value];
    }

    method HashGet(key: string) returns (value: Option<nat>)
      ensures value == if key in hash then Some(hash[key]) else None
    {
      value := if key in hash then Some(hash[key]) else None;
    }

    method MoveKey(from: string, to: string)
      modifies this
      ensures hash == Moved(old(hash), from, to)
    {
      var value := HashGet(from);
      if value.Some? {
        HashPut(to, value.value);
        RemoveKeys(from);
      }
    }

    method RemoveKeys(key: string)
      modifies this
      ensures hash == Without(old(hash), key)
    {
      hash := map k | k in hash && k != key :: hash[k];
    }
  }

  /**
    Moving a key carries its value and touches no other key, exactly when it is not moved to itself and does not
    leave an old value of the target in place.
  */
  lemma MovedExactly(m: map<string, nat>, from: string, to: string)
    ensures var m' := Moved(m, from, to);
      && (forall k | k != from && k != to :: k in m' <==> k in m)
      && (forall k | k != from && k != to && k in m :: m'[k] == m[k])
      && (from in m ==> from !in m')
      && ((to in m' <==> from in m) && (from in m ==> to in m' && m'[to] == m[from])
          <==> if from in m then from != to else to !in m)
  {
  }
}
