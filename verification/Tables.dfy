/** Tables from names to values, as the discovery servers fill them. */
module Tables {

  /** The table after every name of a list is mapped to the same value. */
  function Register<V>(t: map<string, V>, names: seq<string>, v: V): map<string, V> {
    if names == [] then t else Register(t, names[..|names| - 1], v)[names[|names| - 1] := v]
  }

  lemma {:induction false} RegisterMeans<V>(t: map<string, V>, names: seq<string>, v: V, f: string)
    ensures f in Register(t, names, v) <==> f in names || f in t
    ensures f in Register(t, names, v) ==> Register(t, names, v)[f] == if f in names then v else t[f]
  {
    if names != [] {
      var init := names[..|names| - 1];
      RegisterMeans(t, init, v, f);
      assert names == init + [names[|names| - 1]];
    }
  }
}
