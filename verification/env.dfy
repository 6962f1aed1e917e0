/** Environment variables (`EnvVar`) and the ordered environment chain
    (`EnvList`) of supfile.go: in-place update or append by key, the list
    decoded from a YAML mapping as a fold of that update, rendering as
    `KEY=VALUE` strings and as bash `export` statements, and the sequential
    shell resolution of values.

    The YAML decoder is outside the model: its output is taken to be the
    ordered sequence of (key, value) items, already rendered as text. The
    shell and the working directory are parameters of `ResolveValues`. */
module Env {
  import opened Wrappers
  import opened Text
  import Collections

  datatype EnvVar = EnvVar(key: string, value: string) {

    /** `EnvVar.String`: the `KEY=VALUE` form handed to a process
        environment. Cutting it at its first "=" recovers the variable when
        the key holds no "=". */
    function String(): (r: string)
      ensures '=' !in key ==> Cut(r, '=') == Some((key, value))
    {
      var r := key + "=" + value;
      assert '=' !in key ==> Cut(r, '=') == Some((key, value)) by {
        if '=' !in key {
          CutJoin(key, '=', value);
        }
      }
      r
    }

    /** `EnvVar.AsExport`: the bash statement `export KEY="VALUE";`, which
        reads back as the variable when the key holds no "=". */
    function AsExport(): (r: string)
      ensures '=' !in key ==> ParseExport(r) == Some(this)
    {
      var r := "export " + key + "=\"" + value + "\";";
      assert '=' !in key ==> ParseExport(r) == Some(this) by {
        if '=' !in key {
          ExportReadsBack(key, value);
        }
      }
      r
    }
  }

  /** An ordered list of variables; `Set` keeps its keys unique. */
  type EnvList = seq<EnvVar>

  ghost predicate HasKey(e: EnvList, k: string) {
    exists i :: 0 <= i < |e| && e[i].key == k
  }

  ghost predicate UniqueKeys(e: EnvList) {
    forall i, j :: 0 <= i < j < |e| ==> e[i].key != e[j].key
  }

  /** Position of the first entry with key `k`: the entry the loop in
      `EnvList.Set` stops at. */
  function FindKey(e: EnvList, k: string): (r: Option<nat>)
    ensures r.None? <==> !HasKey(e, k)
    ensures r.Some? ==>
      && r.value < |e| && e[r.value].key == k
      && forall j :: 0 <= j < r.value ==> e[j].key != k
  {
    if |e| == 0 then None
    else if e[0].key == k then Some(0)
    else
      match FindKey(e[1..], k)
      case None =>
        assert forall i :: 1 <= i < |e| ==> e[i] == e[1..][i - 1];
        None
      case Some(i) => Some(i + 1)
  }

  /** Value of the first entry with key `k`. */
  function Lookup(e: EnvList, k: string): (r: Option<string>)
    ensures r.Some? <==> HasKey(e, k)
  {
    match FindKey(e, k)
    case None => None
    case Some(i) => Some(e[i].value)
  }

  /** `EnvList.Set`: overwrite the value of an existing key where it stands,
      or append a new entry. */
  function Set(e: EnvList, key: string, value: string): (r: EnvList)
    ensures |r| == if HasKey(e, key) then |e| else |e| + 1
    ensures forall i :: 0 <= i < |e| ==> r[i].key == e[i].key
    ensures forall i :: 0 <= i < |e| && e[i].key != key ==> r[i] == e[i]
    ensures forall i :: 0 <= i < |e| && Some(i) != FindKey(e, key) ==> r[i] == e[i]
    ensures HasKey(e, key) ==> r[FindKey(e, key).value] == EnvVar(key, value)
    ensures !HasKey(e, key) ==> r[|e|] == EnvVar(key, value)
    ensures Lookup(r, key) == Some(value)
    ensures forall k :: k != key ==> Lookup(r, k) == Lookup(e, k)
    ensures UniqueKeys(e) ==> UniqueKeys(r)
  {
    match FindKey(e, key)
    case Some(i) =>
      var r := e[i := EnvVar(key, value)];
      assert FindKey(r, key) == Some(i) by {
        assert forall j :: 0 <= j < |e| && j != i ==> r[j] == e[j];
        assert r[i].key == key;
      }
      LookupOtherKeys(e, r, key);
      r
    case None =>
      var r := e + [EnvVar(key, value)];
      assert FindKey(r, key) == Some(|e|) by {
        assert forall j :: 0 <= j < |e| ==> r[j] == e[j];
        assert r[|e|].key == key;
      }
      LookupOtherKeys(e, r, key);
      r
  }

  /** A list that keeps every key in place, changes only entries with key
      `key`, and appends only entries with key `key`, answers every other key
      as before. */
  lemma LookupOtherKeys(e: EnvList, r: EnvList, key: string)
    requires |e| <= |r|
    requires forall j :: 0 <= j < |e| ==> r[j].key == e[j].key
    requires forall j :: 0 <= j < |e| && e[j].key != key ==> r[j] == e[j]
    requires forall j :: |e| <= j < |r| ==> r[j].key == key
    ensures forall k :: k != key ==> Lookup(r, k) == Lookup(e, k)
  {
    forall k | k != key ensures Lookup(r, k) == Lookup(e, k) {
      match FindKey(e, k)
      case None =>
        assert !HasKey(r, k);
      case Some(j) =>
        assert FindKey(r, k) == Some(j);
    }
  }

  /** `EnvList.UnmarshalYAML`: the list built by setting each decoded item in
      turn, starting from the empty list. */
  function FromItems(items: seq<(string, string)>): (r: EnvList)
    ensures UniqueKeys(r)
  {
    if |items| == 0 then []
    else
      var (k, v) := items[|items| - 1];
      Set(FromItems(items[..|items| - 1]), k, v)
  }

  /** Position of the first item declaring `k`. */
  ghost function FirstDeclared(items: seq<(string, string)>, k: string): (r: nat)
    requires Collections.DeclaresName(items, k)
    ensures r < |items| && items[r].0 == k
    ensures forall j :: 0 <= j < r ==> items[j].0 != k
  {
    if items[0].0 == k then 0
    else
      assert Collections.DeclaresName(items[1..], k) by {
        var i :| 0 <= i < |items| && items[i].0 == k;
        assert items[1..][i - 1] == items[i];
      }
      1 + FirstDeclared(items[1..], k)
  }

  /** Value given by the last item declaring `k`. */
  ghost function LastValue(items: seq<(string, string)>, k: string): string
    requires Collections.DeclaresName(items, k)
  {
    var n := |items| - 1;
    if items[n].0 == k then items[n].1
    else
      assert Collections.DeclaresName(items[..n], k) by {
        var i :| 0 <= i < |items| && items[i].0 == k;
        assert items[..n][i] == items[i];
      }
      LastValue(items[..n], k)
  }

  lemma DeclaresSnoc(items: seq<(string, string)>, k: string)
    requires |items| > 0
    ensures Collections.DeclaresName(items, k) <==> Collections.DeclaresName(items[..|items| - 1], k) || items[|items| - 1].0 == k
  {
    var pre := items[..|items| - 1];
    if Collections.DeclaresName(pre, k) {
      var i :| 0 <= i < |pre| && pre[i].0 == k;
      assert items[i] == pre[i];
    }
    if Collections.DeclaresName(items, k) && items[|items| - 1].0 != k {
      var i :| 0 <= i < |items| && items[i].0 == k;
      assert pre[i] == items[i];
    }
  }

  lemma FirstDeclaredSnoc(items: seq<(string, string)>, k: string)
    requires |items| > 0 && Collections.DeclaresName(items[..|items| - 1], k)
    ensures Collections.DeclaresName(items, k)
    ensures FirstDeclared(items, k) == FirstDeclared(items[..|items| - 1], k)
  {
    var pre := items[..|items| - 1];
    DeclaresSnoc(items, k);
    var b := FirstDeclared(pre, k);
    assert forall j :: 0 <= j <= b ==> items[j] == pre[j];
    var a := FirstDeclared(items, k);
    assert items[a].0 == k;
  }

  lemma FirstDeclaredNew(items: seq<(string, string)>)
    requires |items| > 0 && !Collections.DeclaresName(items[..|items| - 1], items[|items| - 1].0)
    ensures Collections.DeclaresName(items, items[|items| - 1].0)
    ensures FirstDeclared(items, items[|items| - 1].0) == |items| - 1
  {
    var n := |items| - 1;
    var k, pre := items[n].0, items[..n];
    assert Collections.DeclaresName(items, k) by {
      assert 0 <= n < |items| && items[n].0 == k;
    }
    assert forall a :: 0 <= a < n ==> items[a].0 != k by {
      assert forall a :: 0 <= a < n ==> pre[a] == items[a];
    }
  }

  /** The decoded list holds exactly the declared keys. */
  lemma {:induction false} FromItemsKeys(items: seq<(string, string)>)
    ensures forall k :: HasKey(FromItems(items), k) <==> Collections.DeclaresName(items, k)
  {
    if |items| > 0 {
      var n := |items| - 1;
      var (k0, v0) := items[n];
      var p := FromItems(items[..n]);
      var r := FromItems(items);
      FromItemsKeys(items[..n]);
      assert r == Set(p, k0, v0);
      forall k ensures HasKey(r, k) <==> Collections.DeclaresName(items, k) {
        DeclaresSnoc(items, k);
        if k != k0 {
          assert Lookup(r, k) == Lookup(p, k);
        }
      }
    }
  }

  /** Each key of the decoded list holds the value of its last declaration. */
  lemma {:induction false} FromItemsValues(items: seq<(string, string)>)
    ensures forall k :: Collections.DeclaresName(items, k) ==> Lookup(FromItems(items), k) == Some(LastValue(items, k))
  {
    if |items| > 0 {
      var n := |items| - 1;
      var (k0, v0) := items[n];
      var p := FromItems(items[..n]);
      var r := FromItems(items);
      FromItemsValues(items[..n]);
      assert r == Set(p, k0, v0);
      forall k | Collections.DeclaresName(items, k) ensures Lookup(r, k) == Some(LastValue(items, k)) {
        DeclaresSnoc(items, k);
      }
    }
  }

  /** Of two positions in the decoded list, the earlier key was declared
      first. */
  lemma {:induction false} FromItemsOrderPair(items: seq<(string, string)>, i: nat, j: nat)
    requires i < j < |FromItems(items)|
    ensures Collections.DeclaresName(items, FromItems(items)[i].key) && Collections.DeclaresName(items, FromItems(items)[j].key)
    ensures FirstDeclared(items, FromItems(items)[i].key) < FirstDeclared(items, FromItems(items)[j].key)
  {
    var n := |items| - 1;
    var pre := items[..n];
    var (k0, v0) := items[n];
    var p := FromItems(pre);
    var r := FromItems(items);
    assert r == Set(p, k0, v0);
    FromItemsKeys(items);
    FromItemsKeys(pre);
    assert HasKey(r, r[i].key) && HasKey(r, r[j].key);
    assert r[i].key == p[i].key;
    assert HasKey(p, p[i].key);
    FirstDeclaredSnoc(items, p[i].key);
    if j < |p| {
      FromItemsOrderPair(pre, i, j);
      assert r[j].key == p[j].key;
      FirstDeclaredSnoc(items, p[j].key);
    } else {
      assert !HasKey(p, k0) && r[j].key == k0;
      FirstDeclaredNew(items);
    }
  }

  /** The decoded keys appear in order of their first declaration. */
  lemma FromItemsOrder(items: seq<(string, string)>)
    ensures forall i :: 0 <= i < |FromItems(items)| ==> Collections.DeclaresName(items, FromItems(items)[i].key)
    ensures forall i, j :: 0 <= i < j < |FromItems(items)| ==>
      FirstDeclared(items, FromItems(items)[i].key) < FirstDeclared(items, FromItems(items)[j].key)
  {
    FromItemsKeys(items);
    var r := FromItems(items);
    forall i | 0 <= i < |r| ensures Collections.DeclaresName(items, r[i].key) {
      assert HasKey(r, r[i].key);
    }
    forall i: nat, j: nat | i < j < |FromItems(items)|
      ensures FirstDeclared(items, FromItems(items)[i].key) < FirstDeclared(items, FromItems(items)[j].key)
    {
      FromItemsOrderPair(items, i, j);
    }
  }

  /** The decoded list holds every declared key exactly once, in order of
      first declaration, each with the value of its last declaration. */
  lemma FromItemsSpec(items: seq<(string, string)>)
    ensures UniqueKeys(FromItems(items))
    ensures forall k :: HasKey(FromItems(items), k) <==> Collections.DeclaresName(items, k)
    ensures forall k :: Collections.DeclaresName(items, k) ==> Lookup(FromItems(items), k) == Some(LastValue(items, k))
    ensures forall i :: 0 <= i < |FromItems(items)| ==> Collections.DeclaresName(items, FromItems(items)[i].key)
    ensures forall i, j :: 0 <= i < j < |FromItems(items)| ==>
      FirstDeclared(items, FromItems(items)[i].key) < FirstDeclared(items, FromItems(items)[j].key)
  {
    FromItemsKeys(items);
    FromItemsValues(items);
    FromItemsOrder(items);
  }

  /** `EnvList.Slice`: every variable as `KEY=VALUE`, in list order. */
  function Slice(e: EnvList): (r: seq<string>)
    ensures |r| == |e|
    ensures forall i :: 0 <= i < |e| ==> r[i] == e[i].String()
  {
    seq(|e|, i requires 0 <= i < |e| => e[i].String())
  }

  /** The process environment handed to the inventory command names every
      variable of the list, in order, and each entry reads back as that
      variable when keys hold no "=". */
  lemma SliceCutsBack(e: EnvList)
    requires forall i :: 0 <= i < |e| ==> '=' !in e[i].key
    ensures |Slice(e)| == |e|
    ensures forall i :: 0 <= i < |e| ==> Cut(Slice(e)[i], '=') == Some((e[i].key, e[i].value))
  {
    forall i | 0 <= i < |e| ensures Cut(Slice(e)[i], '=') == Some((e[i].key, e[i].value)) {
      assert Slice(e)[i] == e[i].String();
    }
  }

  const ExportPrefix := "export "
  const ExportSuffix := "\";"

  /** Reads back a statement of the form `export KEY="VALUE";`, taking the
      key up to the first "=". */
  function ParseExport(s: string): Option<EnvVar> {
    if |s| < |ExportPrefix| + |ExportSuffix| || s[..|ExportPrefix|] != ExportPrefix
      || s[|s| - |ExportSuffix|..] != ExportSuffix
    then None
    else
      match Cut(s[|ExportPrefix|..|s| - |ExportSuffix|], '=')
      case None => None
      case Some((k, rest)) =>
        if |rest| > 0 && rest[0] == '"' then Some(EnvVar(k, rest[1..])) else None
  }

  /** An export statement reads back as the variable it exports when the key
      holds no "=". */
  lemma ExportReadsBack(key: string, value: string)
    requires '=' !in key
    ensures ParseExport("export " + key + "=\"" + value + "\";") == Some(EnvVar(key, value))
  {
    var v := EnvVar(key, value);
    var s := "export " + key + "=\"" + value + "\";";
    var mid := v.key + "=" + ("\"" + v.value);
    assert s == ExportPrefix + mid + ExportSuffix;
    assert s[..|ExportPrefix|] == ExportPrefix;
    assert s[|s| - |ExportSuffix|..] == ExportSuffix;
    assert s[|ExportPrefix|..|s| - |ExportSuffix|] == mid;
    CutJoin(v.key, '=', "\"" + v.value);
    assert ("\"" + v.value)[1..] == v.value;
  }

  /** `EnvList.AsExport`: every variable's export statement followed by a
      space, in list order. */
  function AsExport(e: EnvList): (r: string)
    ensures r == "" <==> |e| == 0
  {
    if |e| == 0 then ""
    else e[0].AsExport() + " " + AsExport(e[1..])
  }

  /** Rendering distributes over concatenation of lists: the rendering is the
      in-order concatenation of the entries' renderings. */
  lemma {:induction false} AsExportConcat(a: EnvList, b: EnvList)
    ensures AsExport(a + b) == AsExport(a) + AsExport(b)
    decreases |a|
  {
    if |a| == 0 {
      assert a + b == b;
    } else {
      assert (a + b)[1..] == a[1..] + b;
      AsExportConcat(a[1..], b);
    }
  }

  /** Appending a new key adds exactly its export statement at the end. */
  lemma AsExportAfterNewKey(e: EnvList, key: string, value: string)
    requires !HasKey(e, key)
    ensures AsExport(Set(e, key, value)) == AsExport(e) + EnvVar(key, value).AsExport() + " "
  {
    var v := EnvVar(key, value);
    assert Set(e, key, value) == e + [v];
    AsExportConcat(e, [v]);
    assert AsExport([v]) == v.AsExport() + " " by {
      assert [v][1..] == [];
    }
  }

  /** Why a resolution aborted: `os.Getwd` failed, or the shell failed on
      the variable named by `key`. */
  datatype ResolveError = GetwdFailed(reason: string) | ShellFailed(key: string, reason: string)

  /** The export statements of the first `n` entries, concatenated without
      separators, as `ResolveValues` accumulates them. */
  function Exports(e: EnvList, n: nat): string
    requires n <= |e|
  {
    if n == 0 then "" else Exports(e, n - 1) + e[n - 1].AsExport()
  }

  /** The bash script run for entry `i`: the exports of entries 0..i with
      their declared values, then `echo -n` of entry i's declared value. */
  function ResolveScript(e: EnvList, i: nat): string
    requires i < |e|
  {
    Exports(e, i + 1) + "echo -n " + e[i].value + ";"
  }

  /** The script for entry `i` depends on entries 0..i only. */
  lemma {:induction false} ResolveScriptPrefix(e1: EnvList, e2: EnvList, i: nat)
    requires i < |e1| && i < |e2| && e1[..i + 1] == e2[..i + 1]
    ensures ResolveScript(e1, i) == ResolveScript(e2, i)
  {
    ExportsPrefix(e1, e2, i + 1);
    assert e1[i] == e1[..i + 1][i];
  }

  lemma {:induction false} ExportsPrefix(e1: EnvList, e2: EnvList, n: nat)
    requires n <= |e1| && n <= |e2| && e1[..n] == e2[..n]
    ensures Exports(e1, n) == Exports(e2, n)
  {
    if n > 0 {
      assert e1[..n - 1] == e1[..n][..n - 1];
      assert e2[..n - 1] == e2[..n][..n - 1];
      ExportsPrefix(e1, e2, n - 1);
      assert e1[n - 1] == e1[..n][n - 1];
      assert e2[n - 1] == e2[..n][n - 1];
    }
  }

  /** Entry `i` is the first whose script the shell fails on. */
  ghost predicate FirstShellFailure(e: EnvList, cwd: string, shell: (string, string) -> Result<string, string>, i: int) {
    && 0 <= i < |e|
    && shell(ResolveScript(e, i), cwd).Err?
    && forall j :: 0 <= j < i ==> shell(ResolveScript(e, j), cwd).Ok?
  }

  /** Entry `j` resolves: the shell succeeds on its script and `v` is the
      entry with the shell's output as its value. */
  ghost predicate ResolvedAs(e: EnvList, cwd: string, shell: (string, string) -> Result<string, string>, j: int, v: EnvVar) {
    && 0 <= j < |e|
    && shell(ResolveScript(e, j), cwd).Ok?
    && v == EnvVar(e[j].key, shell(ResolveScript(e, j), cwd).value)
  }

  /** `EnvList.ResolveValues`: replace each value by the output of bash on
      that entry's script, in order. `cwd` is what `os.Getwd` reports and
      `shell(script, dir)` what `bash -c script` prints in `dir`. */
  method ResolveValues(e: EnvList, cwd: Result<string, string>, shell: (string, string) -> Result<string, string>)
    returns (r: Result<EnvList, ResolveError>)
    ensures |e| == 0 ==> r == Ok([])
    ensures |e| > 0 && cwd.Err? ==> r == Err(GetwdFailed(cwd.error))
    ensures r.Ok? && cwd.Ok? ==>
      && |r.value| == |e|
      && forall i :: 0 <= i < |e| ==> ResolvedAs(e, cwd.value, shell, i, r.value[i])
    ensures cwd.Ok? && r.Err? ==>
      exists i :: FirstShellFailure(e, cwd.value, shell, i) &&
        r.error == ShellFailed(e[i].key, shell(ResolveScript(e, i), cwd.value).error)
    ensures cwd.Ok? ==> (r.Ok? <==> forall i :: 0 <= i < |e| ==> shell(ResolveScript(e, i), cwd.value).Ok?)
  {
    if |e| == 0 {
      return Ok([]);
    }
    if cwd.Err? {
      return Err(GetwdFailed(cwd.error));
    }
    r := ResolveEach(e, cwd.value, shell);
  }

  /** The loop of `ResolveValues` once the working directory is known. */
  method ResolveEach(e: EnvList, cwd: string, shell: (string, string) -> Result<string, string>)
    returns (r: Result<EnvList, ResolveError>)
    ensures r.Ok? ==>
      && |r.value| == |e|
      && forall i :: 0 <= i < |e| ==> ResolvedAs(e, cwd, shell, i, r.value[i])
    ensures r.Err? ==>
      exists i :: FirstShellFailure(e, cwd, shell, i) &&
        r.error == ShellFailed(e[i].key, shell(ResolveScript(e, i), cwd).error)
    ensures r.Ok? <==> forall i :: 0 <= i < |e| ==> shell(ResolveScript(e, i), cwd).Ok?
  {
    var exports := "";
    var out := e;
    var i := 0;
    while i < |e|
      invariant 0 <= i <= |e| && |out| == |e|
      invariant exports == Exports(e, i)
      invariant forall j :: 0 <= j < i ==> ResolvedAs(e, cwd, shell, j, out[j])
      invariant forall j :: i <= j < |e| ==> out[j] == e[j]
    {
      var v := out[i];
      exports := exports + v.AsExport();
      var script := exports + "echo -n " + v.value + ";";
      assert script == ResolveScript(e, i) by {
        assert v == e[i];
      }
      var resolved := shell(script, cwd);
      if resolved.Err? {
        forall j | 0 <= j < i ensures shell(ResolveScript(e, j), cwd).Ok? {
          assert ResolvedAs(e, cwd, shell, j, out[j]);
        }
        assert FirstShellFailure(e, cwd, shell, i);
        return Err(ShellFailed(v.key, resolved.error));
      }
      out := out[i := v.(value := resolved.value)];
      i := i + 1;
    }
    forall j | 0 <= j < |e| ensures shell(ResolveScript(e, j), cwd).Ok? {
      assert ResolvedAs(e, cwd, shell, j, out[j]);
    }
    return Ok(out);
  }
}
