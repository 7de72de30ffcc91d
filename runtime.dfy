/** The parts of the Python runtime the scraper relies on: optional values,
    the exceptions it can raise, the outcome of a step that may raise, the
    numbers and dictionary values it builds, the int()/float() parsers
    (kept abstract), and insertion-ordered dictionaries. */
module Runtime {

  datatype Option<+T> = None | Some(value: T)

  /** The Python exceptions the modelled code can raise. */
  datatype PyError =
    | IndexError              // list index out of range
    | KeyError(key: string)   // a missing tag attribute
    | TypeError               // subscripting None (a missing link)
    | AttributeError          // an attribute of None (a missing page or element)
    | ValueError(literal: string)  // float() of text it does not accept

  /** The result of running code that may raise: the state reached, and the
      exception if one escaped. On a raise, `state` is the state at the
      moment of the raise (what was already mutated stays mutated). */
  datatype Outcome<S> = Done(state: S) | Raised(state: S, error: PyError)
  {
    function Error(): Option<PyError>
    {
      if Done? then None else Some(error)
    }
  }

  /** A Python float, kept symbolic: 0.0, or the value float(literal) has. */
  datatype Num = Zero | FloatOf(literal: string)

  /** A value stored in a stats dictionary. */
  datatype Value =
    | Number(num: Num)
    | GameNo(game: int)          // the integer game number
    | PlayerKey(brName: string)  // a player, referred to by identity
    | Text(text: string)

  type Dict = map<string, Value>

  /** Python's int() and float() on a string, abstracted: `intOf` gives the
      integer int(s) returns (None where it raises ValueError), and
      `floatAccepts` says where float(s) succeeds. */
  datatype NumberSyntax = NumberSyntax(intOf: string -> Option<int>, floatAccepts: string -> bool)

  /** int(s); int('') always raises. */
  function ParseInt(sx: NumberSyntax, s: string): Option<int>
  {
    if s == "" then None else sx.intOf(s)
  }

  /** float(s) succeeds; float('') always raises. */
  predicate ParsesAsFloat(sx: NumberSyntax, s: string)
  {
    s != "" && sx.floatAccepts(s)
  }

  /* ---- insertion-ordered dictionaries (Python dict), as item sequences ---- */

  function Lookup<K(==), V>(items: seq<(K, V)>, k: K): Option<V>
  {
    if items == [] then None
    else if items[0].0 == k then Some(items[0].1)
    else Lookup(items[1..], k)
  }

  function KeysOf<K, V>(items: seq<(K, V)>): set<K>
  {
    set i | 0 <= i < |items| :: items[i].0
  }

  predicate KeysDistinct<K(==), V>(items: seq<(K, V)>)
  {
    forall i, j :: 0 <= i < j < |items| ==> items[i].0 != items[j].0
  }

  /** The keys of a non-empty item sequence: its head's key and the rest's. */
  lemma KeysOfCons<K, V>(items: seq<(K, V)>)
    requires items != []
    ensures KeysOf(items) == {items[0].0} + KeysOf(items[1..])
  {
    forall x | x in KeysOf(items) ensures x in {items[0].0} + KeysOf(items[1..]) {
      var i :| 0 <= i < |items| && items[i].0 == x;
      if i > 0 { assert items[1..][i - 1].0 == x; }
    }
    forall x | x in KeysOf(items[1..]) ensures x in KeysOf(items) {
      var i :| 0 <= i < |items[1..]| && items[1..][i].0 == x;
      assert items[i + 1].0 == x;
    }
  }

  /** `d[k] = v`: an existing key keeps its position and takes the new
      value; a new key goes to the end. */
  function Assign<K(==, !new), V>(items: seq<(K, V)>, k: K, v: V): (r: seq<(K, V)>)
    ensures Lookup(r, k) == Some(v)
    ensures forall k' :: k' != k ==> Lookup(r, k') == Lookup(items, k')
  {
    if items == [] then [(k, v)]
    else if items[0].0 == k then [(k, v)] + items[1..]
    else
      var r := [items[0]] + Assign(items[1..], k, v);
      assert r[1..] == Assign(items[1..], k, v);
      r
  }

  /** The keys after `d[k] = v` are the keys before and k; distinct keys stay
      distinct, and the dictionary grows by one item only for a new key. */
  lemma {:induction false} AssignKeys<K(!new), V>(items: seq<(K, V)>, k: K, v: V)
    ensures var r := Assign(items, k, v);
      KeysOf(r) == KeysOf(items) + {k} &&
      (KeysDistinct(items) ==> KeysDistinct(r)) &&
      (k in KeysOf(items) ==> |r| == |items|) &&
      (k !in KeysOf(items) ==> |r| == |items| + 1)
    decreases |items|
  {
    var r := Assign(items, k, v);
    if items != [] {
      KeysOfCons(items);
      KeysOfCons(r);
      if items[0].0 == k {
        assert r[1..] == items[1..];
      } else {
        AssignKeys(items[1..], k, v);
        assert r[1..] == Assign(items[1..], k, v);
        if KeysDistinct(items) {
          forall i | 0 <= i < |items[1..]| ensures items[1..][i].0 != items[0].0 {
            assert items[1..][i] == items[i + 1];
          }
          forall i, j | 0 <= i < j < |items[1..]| ensures items[1..][i].0 != items[1..][j].0 {
            assert items[1..][i] == items[i + 1] && items[1..][j] == items[j + 1];
          }
          assert items[0].0 !in KeysOf(items[1..]);
          assert KeysDistinct(r[1..]);
          forall i, j | 0 <= i < j < |r| ensures r[i].0 != r[j].0 {
            if i == 0 {
              assert r[j] == r[1..][j - 1];
              assert r[j].0 in KeysOf(r[1..]);
            } else {
              assert r[i] == r[1..][i - 1] && r[j] == r[1..][j - 1];
            }
          }
        }
      }
    }
  }

  /** Insertion order: a new key is appended after every existing item; an
      existing key keeps its position, and so does every other item. */
  lemma {:induction false} AssignOrder<K(!new), V>(items: seq<(K, V)>, k: K, v: V)
    ensures k !in KeysOf(items) ==> Assign(items, k, v) == items + [(k, v)]
    ensures k in KeysOf(items) ==> var r := Assign(items, k, v);
      |r| == |items| && forall i :: 0 <= i < |items| ==> r[i].0 == items[i].0
    decreases |items|
  {
    if items != [] {
      KeysOfCons(items);
      var r := Assign(items, k, v);
      if items[0].0 != k {
        AssignOrder(items[1..], k, v);
        assert r == [items[0]] + Assign(items[1..], k, v);
        if k !in KeysOf(items) {
          assert items == [items[0]] + items[1..];
        } else {
          forall i | 0 <= i < |items| ensures r[i].0 == items[i].0 {
            if i > 0 {
              assert r[i] == Assign(items[1..], k, v)[i - 1] && items[i] == items[1..][i - 1];
            }
          }
        }
      }
    }
  }

  /** With distinct keys the number of items is the number of keys. */
  lemma {:induction false} DistinctKeysCount<K, V>(items: seq<(K, V)>)
    requires KeysDistinct(items)
    ensures |KeysOf(items)| == |items|
  {
    if items != [] {
      var rest := items[1..];
      DistinctKeysCount(rest);
      KeysOfCons(items);
      forall i | 0 <= i < |rest| ensures rest[i].0 != items[0].0 {
        assert rest[i] == items[i + 1];
      }
      assert items[0].0 !in KeysOf(rest);
    }
  }
}
