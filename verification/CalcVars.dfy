// The table of named numbers: eight slots and a linear search, which is a finite
// map of at most eight names (kernel/src/vars.c).
module CalcVars {
  import opened Common
  import opened CalcArith
  import opened CalcSyntax
  import opened CalcValue

  const VARS_MAX: nat := 8

  /** `fits`: a name that is there and goes into a slot. */
  predicate NameFits(name: string) { 0 < |name| <= VARS_MAX_NAME }

  ghost predicate Differ(names: seq<string>, i: int, j: int) { 0 <= i < j < |names| ==> names[i] != names[j] }

  ghost predicate Distinct(names: seq<string>) { forall i, j {:trigger Differ(names, i, j)} :: Differ(names, i, j) }

  /** The names bound to the values, one slot after another. */
  ghost function Bound(names: seq<string>, values: seq<int>): (env: Env)
    requires |names| == |values|
  {
    if names == [] then map[]
    else
      var n := |names| - 1;
      Bound(names[..n], values[..n])[names[n] := values[n]]
  }

  lemma {:induction false} BoundHolds(names: seq<string>, values: seq<int>)
    requires |names| == |values| && Distinct(names)
    ensures forall n {:trigger n in Bound(names, values)} :: n in Bound(names, values) <==> n in names
    ensures forall i :: 0 <= i < |names| ==> Bound(names, values)[names[i]] == values[i]
    ensures |Bound(names, values)| == |names|
  {
    if names != [] {
      var n := |names| - 1;
      var front, last := names[..n], names[n];
      forall i, j ensures Differ(front, i, j) { assert Differ(names, i, j); }
      forall i | 0 <= i < n ensures names[i] != last { assert Differ(names, i, n); }
      BoundHolds(front, values[..n]);
      assert forall x :: x in names <==> x in front || x == last;
      assert last !in front;
      forall i | 0 <= i < |names| ensures Bound(names, values)[names[i]] == values[i] {
        if i < n { assert front[i] == names[i] && values[..n][i] == values[i]; }
      }
      var before := Bound(front, values[..n]);
      assert Bound(names, values).Keys == before.Keys + {last};
    }
  }

  /** A slot given another value. */
  lemma BoundUpdated(names: seq<string>, values: seq<int>, i: nat, value: int)
    requires |names| == |values| && Distinct(names) && i < |names|
    ensures Bound(names, values[i := value]) == Bound(names, values)[names[i] := value]
  {
    BoundHolds(names, values);
    BoundHolds(names, values[i := value]);
    var a, b := Bound(names, values[i := value]), Bound(names, values)[names[i] := value];
    forall n | n in a ensures n in b && a[n] == b[n] {
      var k :| 0 <= k < |names| && names[k] == n;
      assert a[names[k]] == values[i := value][k];
    }
    assert a.Keys == b.Keys;
  }

  lemma BoundAppended(names: seq<string>, values: seq<int>, name: string, value: int)
    requires |names| == |values|
    ensures Bound(names + [name], values + [value]) == Bound(names, values)[name := value]
  {
    assert (names + [name])[..|names|] == names && (values + [value])[..|names|] == values;
  }

  lemma StillDistinct(names: seq<string>, name: string)
    requires Distinct(names) && name !in names
    ensures Distinct(names + [name])
  {
    forall i, j ensures Differ(names + [name], i, j) { assert Differ(names, i, j); }
  }

  class Vars {
    const names: array<string>
    const values: array<int>
    var count: nat

    ghost predicate Valid()
      reads this, names, values
    {
      && names.Length == VARS_MAX && values.Length == VARS_MAX && count <= VARS_MAX
      && (forall i :: 0 <= i < count ==> NameFits(names[i]) && Fits(values[i]))
      && Distinct(names[..count])
    }

    /** What the table means. */
    ghost function Env(): (env: Env)
      requires Valid()
      reads this, names, values
    {
      Bound(names[..count], values[..count])
    }

    constructor ()
      ensures Valid() && Env() == map[] && fresh(names) && fresh(values)
    {
      names, values, count := new string[VARS_MAX](_ => ""), new int[VARS_MAX](_ => 0), 0;
    }

    /** `vars_reset`. */
    method Reset()
      requires Valid()
      modifies this`count, names, values
      ensures Valid() && Env() == map[]
    {
      for i := 0 to VARS_MAX
      {
        names[i], values[i] := "", 0;
      }
      count := 0;
    }

    /** The slot of a name, or the count. */
    method Find(name: string) returns (i: nat)
      requires Valid()
      ensures i <= count && (i < count ==> names[i] == name)
      ensures i == count <==> name !in names[..count]
    {
      i := 0;
      while i < count && names[i] != name
        invariant i <= count && name !in names[..i]
      {
        i := i + 1;
      }
      if i < count { assert names[..count][i] == name; }
    }

    /** `vars_get`: a name is known exactly when something was stored under it. */
    method Get(name: string) returns (ok: bool, value: int)
      requires Valid()
      ensures ok <==> name in Env()
      ensures ok ==> value == Env()[name] && Fits(value)
    {
      BoundHolds(names[..count], values[..count]);
      if !NameFits(name) { return false, 0; }
      var i := Find(name);
      if i == count { return false, 0; }
      assert names[..count][i] == name && values[..count][i] == values[i];
      return true, values[i];
    }

    /** `vars_set`: the map with that one name changed, or, when the name is too
        long or every slot holds another, nothing. */
    method Set(name: string, value: int) returns (ok: bool)
      requires Valid() && Fits(value)
      modifies this`count, names, values
      ensures Valid()
      ensures ok <==> name != "" && |name| <= 4 && (name in old(Env()) || |old(Env())| < 8)
      ensures Env() == if ok then old(Env())[name := value] else old(Env())
    {
      if !NameFits(name) { return false; }
      ghost var ns, vs := names[..count], values[..count];
      BoundHolds(ns, vs);
      var i := Find(name);
      if i < count {
        values[i] := value;
        assert names[..count] == ns && values[..count] == vs[i := value];
        BoundUpdated(ns, vs, i, value);
        return true;
      }
      if count >= VARS_MAX { return false; }
      Append(name, value);
      return true;
    }

    /** The next slot taken. */
    method Append(name: string, value: int)
      requires Valid() && NameFits(name) && Fits(value) && name !in names[..count] && count < VARS_MAX
      modifies this`count, names, values
      ensures Valid() && Env() == old(Env())[name := value]
    {
      ghost var ns, vs := names[..count], values[..count];
      names[count] := name;
      values[count] := value;
      count := count + 1;
      assert names[..count] == ns + [name] && values[..count] == vs + [value];
      BoundAppended(ns, vs, name, value);
      StillDistinct(ns, name);
    }

    lemma EnvFits()
      requires Valid()
      ensures EnvOk(Env())
    {
      BoundHolds(names[..count], values[..count]);
      forall n | n in Env() ensures Fits(Env()[n]) {
        var i :| 0 <= i < count && names[..count][i] == n;
        assert values[..count][i] == values[i];
      }
    }
  }
}
