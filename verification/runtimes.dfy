/** The runtime record of a toolchain run (`Toolchain.runtimes`, a
    `collections.OrderedDict`): stage name to measured duration, in the order
    the names were first assigned. */
module Runtimes {
  import opened Wrappers

  /** `end - start` of two `time.time()` readings: a float difference supplied
      by the environment, so nothing here assumes it is non-negative. */
  type Duration = real

  datatype Entry = Entry(name: string, dt: Duration)

  /** The ordered dictionary, as its entries in iteration order. */
  type Runtimes = seq<Entry>

  /** The iteration order of the record's keys. */
  function Keys(r: Runtimes): (ks: seq<string>)
    ensures |ks| == |r|
    ensures forall i :: 0 <= i < |r| ==> ks[i] == r[i].name
  {
    seq(|r|, i requires 0 <= i < |r| => r[i].name)
  }

  /** A dictionary never holds a key twice. */
  predicate DistinctKeys(r: Runtimes) {
    forall i, j :: 0 <= i < j < |r| ==> r[i].name != r[j].name
  }

  /** `r.get(name)`. */
  function Lookup(r: Runtimes, name: string): Option<Duration>
  {
    if r == [] then None
    else if r[0].name == name then Some(r[0].dt)
    else Lookup(r[1..], name)
  }

  /** The keys after assigning `name`: an ordered dictionary keeps the position of
      a key it already holds and appends a new one. */
  function AddKey(ks: seq<string>, name: string): seq<string>
  {
    if name in ks then ks else ks + [name]
  }

  /** `add_runtime(name, dt)`, i.e. `runtimes[name] = dt`. */
  function AddRuntime(r: Runtimes, name: string, dt: Duration): (r': Runtimes)
    ensures Keys(r') == AddKey(Keys(r), name)
    ensures Lookup(r', name) == Some(dt)
    ensures forall k :: k != name ==> Lookup(r', k) == Lookup(r, k)
    ensures DistinctKeys(r) ==> DistinctKeys(r')
  {
    if r == [] then [Entry(name, dt)]
    else if r[0].name == name then
      var r' := [Entry(name, dt)] + r[1..];
      assert r'[1..] == r[1..];
      assert Keys(r') == Keys(r) by { KeysCons(r'); KeysCons(r); }
      r'
    else
      var tail := AddRuntime(r[1..], name, dt);
      var r' := [r[0]] + tail;
      assert r'[0] == r[0] && r'[1..] == tail;
      KeysCons(r);
      KeysCons(r');
      assert DistinctKeys(r) ==> DistinctKeys(r') by {
        if DistinctKeys(r) {
          DistinctTail(r);
          DistinctCons(r');
        }
      }
      r'
  }

  lemma KeysCons(r: Runtimes)
    requires r != []
    ensures Keys(r) == [r[0].name] + Keys(r[1..])
  {
  }

  /** A record is a dictionary exactly when its tail is one that misses its first key. */
  lemma DistinctTail(r: Runtimes)
    requires r != [] && DistinctKeys(r)
    ensures DistinctKeys(r[1..]) && r[0].name !in Keys(r[1..])
  {
    forall i, j | 0 <= i < j < |r| - 1
      ensures r[1..][i].name != r[1..][j].name
    {
      assert r[1..][i] == r[i + 1] && r[1..][j] == r[j + 1];
    }
    forall j | 0 <= j < |r| - 1
      ensures Keys(r[1..])[j] != r[0].name
    {
      assert r[1..][j] == r[j + 1];
    }
  }

  lemma DistinctCons(r: Runtimes)
    requires r != [] && DistinctKeys(r[1..]) && r[0].name !in Keys(r[1..])
    ensures DistinctKeys(r)
  {
    forall i, j | 0 <= i < j < |r|
      ensures r[i].name != r[j].name
    {
      assert r[j] == r[1..][j - 1];
      if i > 0 {
        assert r[i] == r[1..][i - 1];
      } else {
        assert Keys(r[1..])[j - 1] == r[j].name;
      }
    }
  }

  /** The record seen as a plain dictionary. */
  function ToMap(r: Runtimes): map<string, Duration>
  {
    if r == [] then map[] else ToMap(r[1..])[r[0].name := r[0].dt]
  }

  lemma {:induction false} LookupToMap(r: Runtimes, k: string)
    ensures Lookup(r, k) == if k in ToMap(r) then Some(ToMap(r)[k]) else None
  {
    if r != [] {
      LookupToMap(r[1..], k);
    }
  }

  /** Assignment on the ordered record is assignment on the dictionary it
      stands for: only the iteration order is extra. */
  lemma AddRuntimeRefinesMap(r: Runtimes, name: string, dt: Duration)
    ensures ToMap(AddRuntime(r, name, dt)) == ToMap(r)[name := dt]
  {
    var r' := AddRuntime(r, name, dt);
    var m, m' := ToMap(r)[name := dt], ToMap(r');
    forall k
      ensures (k in m' <==> k in m) && (k in m ==> m'[k] == m[k])
    {
      LookupToMap(r, k);
      LookupToMap(r', k);
    }
  }

  /** The record as the constructor leaves it: `nop` timed around `true`. */
  function Seeded(dt: Duration): (r: Runtimes)
    ensures Keys(r) == ["nop"] && Lookup(r, "nop") == Some(dt)
  {
    [Entry("nop", dt)]
  }
}
