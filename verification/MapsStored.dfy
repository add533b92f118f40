/** What the client's multi_zset does to the data, as far as the command it sends says so. */
module MapsStored {
  import opened Text
  import opened Client
  import opened Effects

  lemma {:induction false} AddsFlattened(z: map<string, int>, kss: seq<(string, int)>, m: map<string, int>)
    requires Lists(kss, m) && Int64s(kss)
    ensures SsdbAdd(z, Flatten(kss)) == z + m
    decreases |kss|
  {
    hide StrInt64, StrToInt64, SsdbAdd;
    if kss == [] {
      assert m == map[] && z + m == z;
      AddsNothing(z);
    } else {
      var k, v := kss[0].0, kss[0].1;
      var rest := map x | x in m && x != k :: m[x];
      TailLists(kss, m);
      AddsFlattened(z[k := v], kss[1..], rest);
      Int64RoundTrip(v, Clear);
      AddsOne(z, k, StrInt64(v), Flatten(kss[1..]));
      PutFirst(z, m, k);
    }
  }

  lemma PutFirst(z: map<string, int>, m: map<string, int>, k: string)
    requires k in m
    ensures z[k := m[k]] + (map x | x in m && x != k :: m[x]) == z + m
  {
  }

  lemma AddsNothing(z: map<string, int>)
    ensures SsdbAdd(z, []) == z
  {
  }

  lemma AddsOne(z: map<string, int>, k: string, v: string, flat: seq<string>)
    ensures SsdbAdd(z, [k, v] + flat) == SsdbAdd(z[k := StrToInt64(v)], flat)
  {
    assert ([k, v] + flat)[2..] == flat;
  }

  /** In whatever order the map is listed: its scores replace or join those of the sorted set. */
  lemma MultiZSetStores(s: Store, name: string, kss: seq<(string, int)>, m: map<string, int>)
    requires Lists(kss, m) && Int64s(kss) && kss != []
    ensures var c := MultiZSetCommand(name, kss);
            && SsdbArity(c[0], |c|)
            && SsdbEffect(s, c) == s.(zsets := s.zsets[name := s.ZSet(name) + m])
  {
    hide Lists, Int64s, SsdbAdd;
    AddsFlattened(s.ZSet(name), kss, m);
    FlatLength(kss);
    assert (["multi_zset", name] + Flatten(kss))[2..] == Flatten(kss);
  }

  lemma {:induction false} FlatLength(kss: seq<(string, int)>)
    ensures |Flatten(kss)| == 2 * |kss|
  {
    if kss != [] {
      FlatLength(kss[1..]);
    }
  }
}
