/** Configuration documents as trees, read and written along key paths. */
module ConfigTree {
  import opened Options

  type Path = seq<string>

  /** A document value. An array can hold named fields too, beside its items. */
  datatype Value =
    | Null
    | Scalar(text: string)
    | Record(fields: map<string, Value>)
    | Array(items: seq<Value>, fields: map<string, Value>)

  const EMPTY := Record(map[])

  /** What the source tests as `typeof value === "object"`, `null` left out. */
  predicate IsObject(v: Value) {
    v.Record? || v.Array?
  }

  function Get(v: Value, p: Path): Option<Value>
    decreases |p|
  {
    if p == [] then Some(v)
    else if !IsObject(v) || p[0] !in v.fields then None
    else Get(v.fields[p[0]], p[1..])
  }

  predicate ObjectAt(v: Value, p: Path) {
    Get(v, p).Some? && IsObject(Get(v, p).value)
  }

  /** Both plain objects, or both arrays with the same items. */
  predicate SameKind(a: Value, b: Value) {
    if a.Array? then b.Array? && a.items == b.items else a.Record? && b.Record?
  }

  function AsObject(v: Option<Value>): Value {
    if v.Some? && IsObject(v.value) then v.value else EMPTY
  }

  function Child(v: Value, k: string): Option<Value> {
    if IsObject(v) && k in v.fields then Some(v.fields[k]) else None
  }

  /** Everything along the path becomes an object, and what already was one keeps its other fields. */
  function Set(v: Value, p: Path, x: Value): Value
    decreases |p|
  {
    if p == [] then x
    else Put(v, p[0], Set(AsObject(Child(v, p[0])), p[1..], x))
  }

  function Put(v: Value, k: string, x: Value): (r: Value)
    ensures IsObject(r) && Child(r, k) == Some(x) && SameKind(r, AsObject(Some(v)))
  {
    var o := AsObject(Some(v));
    o.(fields := o.fields[k := x])
  }

  lemma PutTwice(v: Value, k: string, x: Value, y: Value)
    ensures Put(Put(v, k, x), k, y) == Put(v, k, y)
  {
    assert Put(Put(v, k, x), k, y).fields == Put(v, k, y).fields;
  }

  function Drop(v: Value, k: string): Value {
    if IsObject(v) then v.(fields := v.fields - {k}) else v
  }

  function Parent(p: Path): Path
    requires p != []
  {
    p[..|p| - 1]
  }

  function Leaf(p: Path): string
    requires p != []
  {
    p[|p| - 1]
  }

  /** A nested field is only deleted from a plain object. */
  function Delete(v: Value, p: Path): Value
    requires p != []
  {
    if |p| == 1 then Drop(v, p[0])
    else
      match Get(v, Parent(p))
      case None => v
      case Some(parent) => if parent.Record? then Set(v, Parent(p), Drop(parent, Leaf(p))) else v
  }

  predicate Independent(p: Path, q: Path) {
    !(p <= q) && !(q <= p)
  }

  // ---------- laws ----------

  lemma {:induction false} GetOfSet(v: Value, p: Path, q: Path, x: Value)
    ensures Get(Set(v, p, x), p + q) == Get(x, q)
    decreases |p|
  {
    if p == [] {
      assert p + q == q;
    } else {
      GetOfSet(AsObject(Child(v, p[0])), p[1..], q, x);
      assert (p + q)[1..] == p[1..] + q;
    }
  }

  lemma {:induction false} GetThrough(v: Value, p: Path, q: Path)
    ensures Get(v, p).Some? ==> Get(v, p + q) == Get(Get(v, p).value, q)
    ensures Get(v, p).None? ==> Get(v, p + q).None?
    decreases |p|
  {
    if p == [] {
      assert p + q == q;
    } else {
      assert (p + q)[1..] == p[1..] + q;
      if IsObject(v) && p[0] in v.fields {
        GetThrough(v.fields[p[0]], p[1..], q);
      }
    }
  }

  lemma {:induction false} SetOfSet(v: Value, p: Path, x: Value, y: Value)
    ensures Set(Set(v, p, x), p, y) == Set(v, p, y)
    decreases |p|
  {
    if p != [] {
      var inner := AsObject(Child(v, p[0]));
      var a, b := Set(inner, p[1..], x), Set(inner, p[1..], y);
      SetOfSet(inner, p[1..], x, y);
      PutTwice(v, p[0], a, b);
      hide Put;
      assert Set(v, p, x) == Put(v, p[0], a) && Set(v, p, y) == Put(v, p[0], b);
      assert p[1..] != [] ==> AsObject(Some(a)) == a;
      assert Set(AsObject(Some(a)), p[1..], y) == b;
    }
  }

  /** A write along a path is a write of what the first part leads to. */
  lemma {:induction false} SetThrough(v: Value, p: Path, q: Path, x: Value)
    requires q != []
    ensures Set(v, p + q, x) == Set(v, p, Set(AsObject(Get(v, p)), q, x))
    decreases |p|
  {
    if p == [] {
      assert p + q == q;
    } else {
      assert (p + q)[1..] == p[1..] + q;
      var inner := AsObject(Child(v, p[0]));
      SetThrough(inner, p[1..], q, x);
      assert AsObject(Get(inner, p[1..])) == AsObject(Get(v, p)) by {
        if IsObject(v) && p[0] in v.fields && !IsObject(v.fields[p[0]]) && p[1..] != [] {
          assert Get(v.fields[p[0]], p[1..]).None?;
        }
      }
    }
  }

  lemma {:induction false} SetOfGet(v: Value, p: Path)
    requires Get(v, p).Some?
    ensures Set(v, p, Get(v, p).value) == v
    decreases |p|
  {
    if p != [] {
      var inner := v.fields[p[0]];
      SetOfGet(inner, p[1..]);
      assert v.fields[p[0] := inner] == v.fields;
    }
  }

  /** A write is seen only along its own path. */
  lemma {:induction false} SetFrame(v: Value, p: Path, x: Value, q: Path)
    requires Independent(p, q)
    ensures Get(Set(v, p, x), q) == Get(v, q)
    decreases |p|
  {
    if p[0] == q[0] {
      assert Independent(p[1..], q[1..]) by {
        assert p == [p[0]] + p[1..] && q == [q[0]] + q[1..];
      }
      SetFrame(AsObject(Child(v, p[0])), p[1..], x, q[1..]);
    }
  }

  /** Above a write, what was an object stays one, with its list. */
  lemma {:induction false} SetAbove(v: Value, p: Path, x: Value, q: Path)
    requires q <= p && q != p && ObjectAt(v, q)
    ensures ObjectAt(Set(v, p, x), q) && SameKind(Get(Set(v, p, x), q).value, Get(v, q).value)
    decreases |p|
  {
    if q != [] {
      assert p == [p[0]] + p[1..] && q == [q[0]] + q[1..];
      assert q[1..] <= p[1..];
      SetAbove(v.fields[q[0]], p[1..], x, q[1..]);
    }
  }

  lemma SplitLeaf(p: Path)
    requires p != []
    ensures Parent(p) + [Leaf(p)] == p
  {
  }

  lemma DropFrame(v: Value, k: string, q: Path)
    requires Independent([k], q)
    ensures Get(Drop(v, k), q) == Get(v, q)
  {
    assert [k] <= q <==> q != [] && q[0] == k;
    assert q != [] && q[0] != k;
  }

  lemma DeleteFrame(v: Value, p: Path, q: Path)
    requires p != [] && Independent(p, q)
    ensures Get(Delete(v, p), q) == Get(v, q)
  {
    SplitLeaf(p);
    if |p| == 1 {
      assert p == [p[0]];
      DropFrame(v, p[0], q);
    } else if ObjectAt(v, Parent(p)) && Get(v, Parent(p)).value.Record? {
      var up, parent := Parent(p), Get(v, Parent(p)).value;
      if up <= q {
        var rest := q[|up|..];
        assert q == up + rest;
        assert Independent([Leaf(p)], rest);
        GetOfSet(v, up, rest, Drop(parent, Leaf(p)));
        GetThrough(v, up, rest);
        DropFrame(parent, Leaf(p), rest);
      } else {
        SetFrame(v, up, Drop(parent, Leaf(p)), q);
      }
    }
  }

  /** A field of an array is the one kind a deletion leaves behind. */
  predicate Stuck(v: Value, p: Path)
    requires p != []
  {
    |p| > 1 && Get(v, p).Some? && !AsObject(Get(v, Parent(p))).Record?
  }

  lemma DeleteIff(v: Value, p: Path)
    requires p != []
    ensures Get(Delete(v, p), p).None? <==> !Stuck(v, p)
  {
    SplitLeaf(p);
    var up, leaf := Parent(p), Leaf(p);
    GetThrough(v, up, [leaf]);
    if |p| == 1 {
      assert p == [p[0]];
    } else if ObjectAt(v, up) && Get(v, up).value.Record? {
      GetOfSet(v, up, [leaf], Drop(Get(v, up).value, leaf));
    }
  }

  /** Above or beside a write, what was an object stays one, and of the same kind. */
  lemma SetKeepsKind(v: Value, p: Path, x: Value, q: Path)
    requires !(p <= q) && ObjectAt(v, q)
    ensures ObjectAt(Set(v, p, x), q) && SameKind(Get(Set(v, p, x), q).value, Get(v, q).value)
  {
    if q <= p {
      SetAbove(v, p, x, q);
    } else {
      SetFrame(v, p, x, q);
    }
  }

  lemma DeleteKeepsKind(v: Value, p: Path, q: Path)
    requires p != [] && !(p <= q) && ObjectAt(v, q)
    ensures ObjectAt(Delete(v, p), q) && SameKind(Get(Delete(v, p), q).value, Get(v, q).value)
  {
    if q <= p {
      var up := Parent(p);
      if |p| == 1 {
        assert q == [];
      } else if ObjectAt(v, up) && Get(v, up).value.Record? {
        var parent := Drop(Get(v, up).value, Leaf(p));
        if q == up {
          GetOfSet(v, up, [], parent);
          assert up + [] == up;
        } else {
          assert q <= up;
          SetAbove(v, up, parent, q);
        }
      }
    } else {
      DeleteFrame(v, p, q);
    }
  }

  lemma StuckAfterSet(v: Value, p: Path, x: Value, c: Path)
    requires c != [] && Independent(p, c)
    ensures Stuck(Set(v, p, x), c) <==> Stuck(v, c)
  {
    SetFrame(v, p, x, c);
    ParentOfPresent(v, c);
    if Get(v, c).Some? {
      SetKeepsKind(v, p, x, Parent(c));
    }
  }

  lemma StuckAfterDelete(v: Value, p: Path, c: Path)
    requires p != [] && c != [] && Independent(p, c)
    ensures Stuck(Delete(v, p), c) <==> Stuck(v, c)
  {
    DeleteFrame(v, p, c);
    ParentOfPresent(v, c);
    if Get(v, c).Some? {
      DeleteKeepsKind(v, p, Parent(c));
    }
  }

  lemma ParentOfPresent(v: Value, c: Path)
    requires c != []
    ensures Get(v, c).Some? ==> ObjectAt(v, Parent(c))
  {
    SplitLeaf(c);
    GetThrough(v, Parent(c), [Leaf(c)]);
  }
}
