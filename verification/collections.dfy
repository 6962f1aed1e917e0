/** The order-preserving named collections of supfile.go (`Networks`,
    `Commands`, `Targets`): the names in declaration order next to a map from
    name to entry. The YAML decoder is outside the model; its output is taken
    to be the ordered sequence of (name, entry) items of the mapping. */
module Collections {

  datatype Named<T> = Named(names: seq<string>, entries: map<string, T>)

  /** The name list and the map speak of the same names. */
  ghost predicate Consistent<T>(c: Named<T>) {
    forall n :: n in c.names <==> n in c.entries
  }

  ghost predicate DeclaresName<T>(items: seq<(string, T)>, n: string) {
    exists i :: 0 <= i < |items| && items[i].0 == n
  }

  /** Item `i` is the last one declaring its name. */
  ghost predicate LastDeclaration<T>(items: seq<(string, T)>, i: int) {
    0 <= i < |items| && forall j :: i < j < |items| ==> items[j].0 != items[i].0
  }

  /** The map a YAML mapping decodes to: a later item with the same name
      replaces an earlier one. */
  function ToMap<T>(items: seq<(string, T)>): (m: map<string, T>)
    ensures forall n :: n in m <==> DeclaresName(items, n)
    ensures forall i :: LastDeclaration(items, i) ==> items[i].0 in m && m[items[i].0] == items[i].1
  {
    if |items| == 0 then map[]
    else
      var n := |items| - 1;
      var pre := items[..n];
      var m := ToMap(pre)[items[n].0 := items[n].1];
      DeclaresNameSnoc(items);
      LastDeclarationSnoc(items);
      m
  }

  /** Dropping the final item keeps every earlier last declaration. */
  lemma LastDeclarationSnoc<T>(items: seq<(string, T)>)
    requires |items| > 0
    ensures forall i :: LastDeclaration(items, i) && i < |items| - 1 ==>
      LastDeclaration(items[..|items| - 1], i) && items[..|items| - 1][i] == items[i]
  {
  }

  lemma DeclaresNameSnoc<T>(items: seq<(string, T)>)
    requires |items| > 0
    ensures forall k :: DeclaresName(items, k) <==>
      DeclaresName(items[..|items| - 1], k) || k == items[|items| - 1].0
  {
    var n := |items| - 1;
    var pre := items[..n];
    forall k ensures DeclaresName(items, k) <==> DeclaresName(pre, k) || k == items[n].0 {
      if DeclaresName(pre, k) {
        var i :| 0 <= i < |pre| && pre[i].0 == k;
        assert items[i] == pre[i];
      }
      if DeclaresName(items, k) && k != items[n].0 {
        var i :| 0 <= i < |items| && items[i].0 == k;
        assert pre[i] == items[i];
      }
    }
  }

  /** `UnmarshalYAML` of `Networks`, `Commands` and `Targets`: the map, and
      the keys of the mapping in declaration order. */
  function Decode<T>(items: seq<(string, T)>): (c: Named<T>)
    ensures |c.names| == |items|
    ensures forall i :: 0 <= i < |items| ==> c.names[i] == items[i].0
    ensures Consistent(c)
    ensures forall i :: LastDeclaration(items, i) ==> c.entries[items[i].0] == items[i].1
  {
    var names := seq(|items|, i requires 0 <= i < |items| => items[i].0);
    var m := ToMap(items);
    assert forall n :: n in names <==> DeclaresName(items, n) by {
      forall n ensures n in names <==> DeclaresName(items, n) {
        if n in names {
          var i :| 0 <= i < |names| && names[i] == n;
          assert items[i].0 == n;
        }
        if DeclaresName(items, n) {
          var i :| 0 <= i < |items| && items[i].0 == n;
          assert names[i] == n;
        }
      }
    }
    Named(names, m)
  }

  /** `Get`: the entry under `name` and whether there is one; a missing name
      yields the entry type's zero value, never a failure. */
  function Get<T>(c: Named<T>, name: string, zero: T): (r: (T, bool))
    ensures r.1 <==> name in c.entries
    ensures r.1 ==> r.0 == c.entries[name]
    ensures !r.1 ==> r.0 == zero
  {
    if name in c.entries then (c.entries[name], true) else (zero, false)
  }

  /** After decoding, a name is found exactly when it was declared, and it
      holds the entry of its last declaration. */
  lemma GetAfterDecode<T>(items: seq<(string, T)>, i: int, zero: T)
    requires LastDeclaration(items, i)
    ensures Get(Decode(items), items[i].0, zero) == (items[i].1, true)
  {
  }

  /** A name that was never declared is reported missing. */
  lemma GetUndeclared<T>(items: seq<(string, T)>, name: string, zero: T)
    requires forall i :: 0 <= i < |items| ==> items[i].0 != name
    ensures Get(Decode(items), name, zero) == (zero, false)
  {
  }

  /** `Networks.Set`: store the entry and append the name, even when the
      name is already listed. */
  function Set<T>(c: Named<T>, name: string, v: T): (r: Named<T>)
    ensures |r.names| == |c.names| + 1
    ensures r.names[..|c.names|] == c.names && r.names[|c.names|] == name
    ensures multiset(r.names)[name] == multiset(c.names)[name] + 1
    ensures Consistent(c) ==> Consistent(r)
    ensures name in r.entries && r.entries[name] == v
    ensures forall n :: n != name ==> (n in r.entries <==> n in c.entries)
    ensures forall n :: n != name && n in c.entries ==> r.entries[n] == c.entries[n]
  {
    var r := Named(c.names + [name], c.entries[name := v]);
    assert r.names[..|c.names|] == c.names;
    r
  }

  /** Setting the same name twice lists it twice; the later entry wins. */
  lemma SetTwiceListsNameTwice<T>(c: Named<T>, name: string, a: T, b: T, zero: T)
    ensures var r := Set(Set(c, name, a), name, b);
      && multiset(r.names)[name] == multiset(c.names)[name] + 2
      && r.names[|r.names| - 2] == name && r.names[|r.names| - 1] == name
      && Get(r, name, zero) == (b, true)
  {
  }
}
