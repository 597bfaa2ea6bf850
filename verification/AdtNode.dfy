/** The ADTNode objects of scripts/dt_fixup.py: a mutable tree whose
    methods do what the codec and the passes compute. */
module AdtNode {
  import opened Wrappers
  import opened Words
  import opened DeviceTree
  import Passes = DeviceTreePasses

  // ---- folding from the front, as the loops do ----

  /** Two stages, the first error wins. */
  function Both(a: Result<seq<byte>>, b: Result<seq<byte>>): Result<seq<byte>> {
    match a
    case Err(e) => Err(e)
    case Ok(x) => match b
      case Err(e) => Err(e)
      case Ok(y) => Ok(x + y)
  }

  lemma {:induction false} EncodePropsAppend(a: Props, b: Props)
    ensures EncodeProps(a + b) == Both(EncodeProps(a), EncodeProps(b))
    decreases |a|
  {
    hide EncodeProp;
    if a == [] {
      assert a + b == b;
      assert EncodeProps(b).Ok? ==> [] + EncodeProps(b).value == EncodeProps(b).value;
    } else {
      assert (a + b)[1..] == a[1..] + b && (a + b)[0] == a[0];
      EncodePropsAppend(a[1..], b);
      var e, x, y := EncodeProp(a[0].0, a[0].1), EncodeProps(a[1..]), EncodeProps(b);
      if e.Ok? && x.Ok? && y.Ok? {
        assert e.value + (x.value + y.value) == e.value + x.value + y.value;
      }
    }
  }

  lemma {:induction false} EncodeChildrenAppend(a: seq<Tree>, b: seq<Tree>)
    ensures EncodeChildren(a + b) == Both(EncodeChildren(a), EncodeChildren(b))
    decreases |a|
  {
    hide EncodeNode;
    if a == [] {
      assert a + b == b;
      assert EncodeChildren(b).Ok? ==> [] + EncodeChildren(b).value == EncodeChildren(b).value;
    } else {
      assert (a + b)[1..] == a[1..] + b && (a + b)[0] == a[0];
      EncodeChildrenAppend(a[1..], b);
      var e, x, y := EncodeNode(a[0]), EncodeChildren(a[1..]), EncodeChildren(b);
      if e.Ok? && x.Ok? && y.Ok? {
        assert e.value + (x.value + y.value) == e.value + x.value + y.value;
      }
    }
  }

  lemma EncodePropsOne(p: (string, Value))
    ensures EncodeProps([p]) == EncodeProp(p.0, p.1)
  {
    hide EncodeProp;
    assert [p][1..] == [];
    var r := EncodeProp(p.0, p.1);
    assert r.Ok? ==> r.value + [] == r.value;
  }

  lemma NoEncodedChildren(ts: seq<Tree>)
    ensures EncodeChildren(ts[..0]) == Ok([])
  {
  }

  lemma EncodeChildrenOne(t: Tree)
    ensures EncodeChildren([t]) == EncodeNode(t)
  {
    hide EncodeNode;
    assert [t][1..] == [];
    var r := EncodeNode(t);
    assert r.Ok? ==> r.value + [] == r.value;
  }

  lemma OneMoreDone(done: seq<Tree>, before: seq<Tree>, i: nat, t: Tree)
    requires |done| == i < |before|
    ensures (done + before[i..])[i := t] == (done + [t]) + before[i + 1..] && (done + before[i..])[i] == before[i]
  {
  }

  // ---- removing a child ----

  /** The children without the first one of that name; looking at a child without a name fails. */
  function RemoveChild(cs: seq<Tree>, name: string): Result<seq<Tree>> {
    if cs == [] then Err(ValueError)
    else match Passes.Get(cs[0].props, "name")
      case None => Err(ValueError)
      case Some(v) =>
        if v == Str(name) then Ok(cs[1..])
        else
          var r :- RemoveChild(cs[1..], name);
          Ok([cs[0]] + r)
  }

  // ---- the objects ----

  class ADTNode {
    var props: Props
    var children: seq<ADTNode>
    ghost var repr: set<ADTNode>
    /** The tree this object stands for. */
    ghost var tree: Tree

    ghost predicate Valid()
      reads this, repr
      decreases repr
    {
      && this in repr && tree.props == props && |tree.children| == |children|
      && (forall i :: 0 <= i < |children| ==>
            && children[i] in repr && children[i].repr <= repr && this !in children[i].repr
            && children[i].Valid() && children[i].tree == tree.children[i])
      && (forall i, j :: 0 <= i < j < |children| ==> children[i].repr !! children[j].repr)
    }

    constructor ()
      ensures Valid() && tree == Tree([], []) && repr == {this}
    {
      props, children := [], [];
      repr, tree := {this}, Tree([], []);
    }

    /** The property loop of decode_node, on the bytes behind the header. */
    method DecodePropsInto(dt: seq<byte>, n: nat) returns (r: Result<nat>)
      requires Valid()
      modifies this
      ensures Valid() && repr == old(repr) && children == old(children) && tree.children == old(tree.children)
      ensures match DecodeProps(dt, n, old(props))
        case Err(e) => r == Err(e)
        case Ok((ps, size)) => r == Ok(size) && props == ps
    {
      hide DecodeHead;
      var rest, size := dt, 0;
      for k := 0 to n
        invariant Valid() && repr == old(repr) && children == old(children) && tree.children == old(tree.children)
        invariant match DecodeProps(rest, n - k, props)
          case Err(e) => DecodeProps(dt, n, old(props)) == Err(e)
          case Ok((ps, more)) => DecodeProps(dt, n, old(props)) == Ok((ps, size + more))
      {
        var head := DecodeHead(rest);
        if head.Err? {
          return Err(head.error);
        }
        var (name, value, len) := head.value;
        props := Put(props, name, value);
        tree := tree.(props := props);
        rest := From(rest, len);
        size := size + len;
      }
      return Ok(size);
    }

    /** decode_node(dt, self) for a new node. */
    method Decode(dt: seq<byte>) returns (r: Result<nat>)
      requires Valid() && props == [] && children == [] && repr == {this}
      modifies this
      ensures fresh(repr - {this})
      ensures match DecodeNode(dt)
        case Err(e) => r == Err(e)
        case Ok((t, size)) => r == Ok(size) && Valid() && tree == t
      decreases |dt|, 1
    {
      hide DecodeProps, DecodeChildren;
      if |dt| < 8 {
        return Err(ValueError);
      }
      var head := DecodePropsInto(dt[8..], FromLe(dt[..4]));
      if head.Err? {
        return head;
      }
      var more := DecodeChildrenInto(From(dt, 8 + head.value), FromLe(dt[4..8]));
      if more.Err? {
        return more;
      }
      return Ok(8 + head.value + more.value);
    }

    /** The child loop of decode_node. */
    method DecodeChildrenInto(dt: seq<byte>, n: nat) returns (r: Result<nat>)
      requires Valid() && children == [] && repr == {this}
      modifies this
      ensures fresh(repr - {this})
      ensures match DecodeChildren(dt, n)
        case Err(e) => r == Err(e)
        case Ok((cs, size)) => r == Ok(size) && Valid() && tree == Tree(old(props), cs)
      decreases |dt|, 2, n
    {
      hide DecodeNode, DecodeChildren;
      var rest, size := dt, 0;
      ghost var all := DecodeChildren(dt, n);
      assert all.Ok? ==> [] + all.value.0 == all.value.0;
      assert tree.children == [] && tree.props == props;
      hide Valid;
      for k := 0 to n
        invariant Valid() && fresh(repr - {this}) && props == old(props) && tree.props == props && |rest| <= |dt|
        invariant match DecodeChildren(rest, n - k)
          case Err(e) => DecodeChildren(dt, n) == Err(e)
          case Ok((cs, more)) => DecodeChildren(dt, n) == Ok((tree.children + cs, size + more))
      {
        ghost var before := tree.children;
        DecodeChildrenStep(rest, n - k, before);
        var child := new ADTNode();
        var got := child.Decode(rest);
        if got.Err? {
          return got;
        }
        Append(child);
        rest := From(rest, got.value);
        size := size + got.value;
      }
      DecodeNoChildren(rest);
      assert tree.children + [] == tree.children;
      return Ok(size);
    }

    /** self.children.append(child) */
    method Append(child: ADTNode)
      requires Valid() && child.Valid() && child.repr !! repr
      modifies this
      ensures Valid() && repr == old(repr) + child.repr && props == old(props)
      ensures tree == Tree(old(tree.props), old(tree.children) + [child.tree])
    {
      children := children + [child];
      repr := repr + child.repr;
      tree := Tree(tree.props, tree.children + [child.tree]);
    }

    /** encode_node(self) */
    method Encode() returns (r: Result<seq<byte>>)
      requires Valid()
      ensures r == EncodeNode(tree)
      decreases repr, 1
    {
      hide EncodeProps, EncodeChildren;
      if |props| >= TWO32 || |children| >= TWO32 {
        return Err(StructError);
      }
      var outv := Le(|props|, 4) + Le(|children|, 4);
      var ps := EncodePropList();
      if ps.Err? {
        return ps;
      }
      outv := outv + ps.value;
      var cs := EncodeChildList();
      if cs.Err? {
        return cs;
      }
      return Ok(outv + cs.value);
    }

    /** The child loop of encode_node. */
    method EncodeChildList() returns (r: Result<seq<byte>>)
      requires Valid()
      ensures r == EncodeChildren(tree.children)
      decreases repr, 0
    {
      hide EncodeNode, EncodeChildren;
      var outv: seq<byte> := [];
      ghost var ts := tree.children;
      NoEncodedChildren(ts);
      for i := 0 to |children|
        invariant EncodeChildren(ts[..i]) == Ok(outv)
      {
        assert ts[..i + 1] == ts[..i] + [ts[i]] && ts == ts[..i + 1] + ts[i + 1..];
        EncodeChildrenAppend(ts[..i], [ts[i]]);
        EncodeChildrenAppend(ts[..i + 1], ts[i + 1..]);
        EncodeChildrenOne(ts[i]);
        var e := children[i].Encode();
        if e.Err? {
          return e;
        }
        outv := outv + e.value;
      }
      assert ts[..|ts|] == ts;
      return Ok(outv);
    }

    /** The property loop of encode_node. */
    method EncodePropList() returns (r: Result<seq<byte>>)
      ensures r == EncodeProps(props)
    {
      hide EncodeProp;
      var outv: seq<byte> := [];
      assert props[..0] == [];
      for i := 0 to |props|
        invariant EncodeProps(props[..i]) == Ok(outv)
      {
        assert props[..i + 1] == props[..i] + [props[i]];
        assert props == props[..i + 1] + props[i + 1..];
        EncodePropsAppend(props[..i], [props[i]]);
        EncodePropsAppend(props[..i + 1], props[i + 1..]);
        EncodePropsOne(props[i]);
        var e := EncodeProp(props[i].0, props[i].1);
        if e.Err? {
          return e;
        }
        outv := outv + e.value;
      }
      assert props[..|props|] == props;
      return Ok(outv);
    }

    /** Children that were replaced one by one: i of them are done, the others untouched. */
    ghost predicate Halfway(done: seq<Tree>, before: seq<Tree>, i: nat)
      reads this
    {
      i <= |before| && |done| == i && tree.children == done + before[i..]
    }

    /** Record the new tree of child i. */
    ghost method Refresh(i: nat)
      requires this in repr && tree.props == props && |tree.children| == |children| && i < |children|
      requires forall k :: 0 <= k < |children| ==>
            && children[k] in repr && children[k].repr <= repr && this !in children[k].repr
            && children[k].Valid() && (k != i ==> children[k].tree == tree.children[k])
      requires forall j, k :: 0 <= j < k < |children| ==> children[j].repr !! children[k].repr
      modifies this`tree
      ensures Valid() && tree == Tree(old(tree.props), old(tree.children)[i := children[i].tree])
    {
      tree := Tree(tree.props, tree.children[i := children[i].tree]);
    }

    /** Assigning to entries of self.props. */
    method SetProps(ps: Props)
      requires Valid()
      modifies this
      ensures Valid() && repr == old(repr) && children == old(children) && tree == Tree(ps, old(tree.children))
    {
      props := ps;
      tree := Tree(ps, tree.children);
    }

    /** _assign_dart_ids: id is the counter before, the result the counter after. */
    method AssignDartIds(id: nat) returns (id': nat)
      requires Valid()
      modifies repr
      ensures Valid() && repr == old(repr)
      ensures (tree, id') == Passes.AssignDartIds(old(tree), id, Passes.Written)
      decreases repr, 2
    {
      hide Passes.IsDart, Passes.DartId, Put, Passes.AssignChildren;
      id' := id;
      if Passes.IsDart(props) {
        SetProps(Put(props, "dart-id", Passes.DartId(id, Passes.Written)));
        id' := id + 1;
      }
      id' := AssignEachChild(id');
    }

    method AssignEachChild(id: nat) returns (id': nat)
      requires Valid()
      modifies repr
      ensures Valid() && repr == old(repr)
      ensures var u := Passes.AssignChildren(old(tree.children), id, Passes.Written);
        id' == u.1 && tree == Tree(old(tree.props), u.0)
      decreases repr, 1
    {
      hide Passes.AssignDartIds, Passes.AssignChildren;
      id' := id;
      ghost var before, done: seq<Tree> := tree.children, [];
      assert |before| == |children|;
      hide Valid;
      AssignNone(before, id);
      for i := 0 to |children|
        invariant Valid() && repr == old(repr) && children == old(children) && |before| == |children|
        invariant tree.props == old(tree.props)
        invariant Halfway(done, before, i)
        invariant done == Passes.AssignChildren(before[..i], id, Passes.Written).0
        invariant id' == Passes.AssignChildren(before[..i], id, Passes.Written).1
      {
        AssignOneMore(before, i, id);
        id' := AssignChild(i, id');
        ghost var t := tree.children[i];
        OneMoreDone(done, before, i, t);
        done := done + [t];
      }
      assert before[..|before|] == before;
      assert tree.children == done;
    }

    /** One round of the loop over the children. */
    method AssignChild(i: nat, id: nat) returns (id': nat)
      requires Valid() && i < |children|
      modifies repr
      ensures Valid() && repr == old(repr) && children == old(children)
      ensures var u := Passes.AssignDartIds(old(tree.children[i]), id, Passes.Written);
        id' == u.1 && tree == Tree(old(tree.props), old(tree.children)[i := u.0])
      decreases repr, 0
    {
      hide Passes.AssignDartIds;
      id' := children[i].AssignDartIds(id);
      Refresh(i);
    }

    /** del_compat: children first, then this node. */
    method DelCompat(path: string, keep: set<string>, drivers: seq<seq<byte>>, lossy: seq<byte> -> string)
      requires Valid()
      modifies repr
      ensures Valid() && repr == old(repr)
      ensures tree == Passes.DelCompat(old(tree), path, keep, drivers, lossy)
      decreases repr, 2
    {
      hide Passes.Mute, Passes.DelCompatAll;
      DelCompatEachChild(path, keep, drivers, lossy);
      SetProps(Passes.Mute(props, path, keep, drivers));
    }

    method DelCompatEachChild(path: string, keep: set<string>, drivers: seq<seq<byte>>, lossy: seq<byte> -> string)
      requires Valid()
      modifies repr
      ensures Valid() && repr == old(repr)
      ensures tree == Tree(old(tree.props), Passes.DelCompatAll(old(tree.children), path, keep, drivers, lossy))
      decreases repr, 1
    {
      hide Passes.DelCompat, Passes.NodeName, Passes.ChildPath, Passes.DelCompatAll;
      ghost var before, done := tree.children, [];
      DelNone(before, path, keep, drivers, lossy);
      for i := 0 to |children|
        invariant Valid() && repr == old(repr) && children == old(children) && |before| == |children|
        invariant tree.props == old(tree.props)
        invariant Halfway(done, before, i) && done == Passes.DelCompatAll(before[..i], path, keep, drivers, lossy)
      {
        DelOneMore(before, i, path, keep, drivers, lossy);
        DelCompatChild(i, path, keep, drivers, lossy);
        ghost var t := tree.children[i];
        OneMoreDone(done, before, i, t);
        done := done + [t];
      }
      assert before[..|before|] == before;
      assert tree.children == done;
    }

    /** One round of the loop over the children. */
    method DelCompatChild(i: nat, path: string, keep: set<string>, drivers: seq<seq<byte>>, lossy: seq<byte> -> string)
      requires Valid() && i < |children|
      modifies repr
      ensures Valid() && repr == old(repr) && children == old(children)
      ensures var c := old(tree.children[i]);
        var t := Passes.DelCompat(c, Passes.ChildPath(path, Passes.NodeName(c.props, lossy)), keep, drivers, lossy);
        tree == Tree(old(tree.props), old(tree.children)[i := t])
      decreases repr, 0
    {
      hide Passes.DelCompat, Passes.NodeName, Passes.ChildPath;
      assert children[i].props == tree.children[i].props;
      children[i].DelCompat(Passes.ChildPath(path, Passes.NodeName(children[i].props, lossy)), keep, drivers, lossy);
      Refresh(i);
    }

    /** self.children.remove of the child at i */
    method DropChild(i: nat)
      requires Valid() && i < |children|
      modifies this
      ensures Valid() && props == old(props)
      ensures tree == Tree(props, old(tree.children)[..i] + old(tree.children)[i + 1..])
    {
      children := children[..i] + children[i + 1..];
      tree := Tree(props, tree.children[..i] + tree.children[i + 1..]);
    }

    /** remove_child */
    method RemoveNamedChild(name: string) returns (ok: bool)
      requires Valid()
      modifies this
      ensures Valid() && props == old(props)
      ensures match RemoveChild(old(tree.children), name)
        case Ok(cs) => ok && tree == Tree(props, cs)
        case Err(_) => !ok && tree == old(tree)
    {
      ghost var ts := tree.children;
      assert |ts| == |children| && tree.props == props
        && forall i :: 0 <= i < |ts| ==> children[i].props == ts[i].props by {
        assert forall i :: 0 <= i < |children| ==> children[i].Valid();
      }
      hide Valid, RemoveChild, Passes.Get;
      assert ts[0..] == ts;
      ghost var all, ts0, cs0 := RemoveChild(ts, name), tree, children;
      assert all.Ok? ==> ts[..0] + all.value == all.value;
      for i := 0 to |children|
        invariant Valid() && tree == ts0 && children == cs0
        invariant match RemoveChild(ts[i..], name)
          case Ok(cs) => RemoveChild(ts, name) == Ok(ts[..i] + cs)
          case Err(e) => RemoveChild(ts, name) == Err(e)
      {
        RemoveStep(ts, i, name);
        var v := Passes.Get(children[i].props, "name");
        if v.None? {
          return false;
        }
        if v.value == Str(name) {
          DropChild(i);
          return true;
        }
      }
      RemoveNone(name);
      assert ts[|ts|..] == [];
      return false;
    }
  }

  lemma DecodeNoChildren(dt: seq<byte>)
    ensures DecodeChildren(dt, 0) == Ok(([], 0))
  {
  }

  lemma DecodeChildrenStep(dt: seq<byte>, n: nat, before: seq<Tree>)
    requires n > 0
    ensures match DecodeNode(dt)
      case Err(e) => DecodeChildren(dt, n) == Err(e)
      case Ok((t, size)) => match DecodeChildren(From(dt, size), n - 1)
        case Err(e) => DecodeChildren(dt, n) == Err(e)
        case Ok((cs, more)) => && DecodeChildren(dt, n) == Ok(([t] + cs, size + more))
                               && before + ([t] + cs) == before + [t] + cs
  {
    hide DecodeNode;
  }

  /** What looking at the first remaining child decides. */
  lemma RemoveStep(ts: seq<Tree>, i: nat, name: string)
    requires i < |ts|
    ensures match Passes.Get(ts[i].props, "name")
      case None => RemoveChild(ts[i..], name) == Err(ValueError)
      case Some(v) =>
        if v == Str(name) then RemoveChild(ts[i..], name) == Ok(ts[i + 1..])
        else match RemoveChild(ts[i + 1..], name)
          case Err(e) => RemoveChild(ts[i..], name) == Err(e)
          case Ok(cs) => RemoveChild(ts[i..], name) == Ok([ts[i]] + cs) && ts[..i] + ([ts[i]] + cs) == ts[..i + 1] + cs
  {
    hide Passes.Get;
    assert ts[i..][1..] == ts[i + 1..] && ts[i..][0] == ts[i];
  }

  lemma RemoveNone(name: string)
    ensures RemoveChild([], name) == Err(ValueError)
  {
  }

  lemma AssignNone(cs: seq<Tree>, id: nat)
    ensures Passes.AssignChildren(cs[..0], id, Passes.Written) == ([], id)
  {
  }

  /** The numbering of one more child continues the counter. */
  lemma {:induction false} AssignSnoc(cs: seq<Tree>, t: Tree, id: nat)
    ensures var (r, id') := Passes.AssignChildren(cs, id, Passes.Written);
      var (u, id'') := Passes.AssignDartIds(t, id', Passes.Written);
      Passes.AssignChildren(cs + [t], id, Passes.Written) == (r + [u], id'')
    decreases |cs|
  {
    hide Passes.AssignDartIds;
    if cs == [] {
      assert cs + [t] == [t] && [t][1..] == [];
      var u := Passes.AssignDartIds(t, id, Passes.Written).0;
      assert [u] + [] == [] + [u];
    } else {
      var (c, id') := Passes.AssignDartIds(cs[0], id, Passes.Written);
      assert (cs + [t])[1..] == cs[1..] + [t];
      AssignSnoc(cs[1..], t, id');
      var (r, n) := Passes.AssignChildren(cs[1..], id', Passes.Written);
      var u := Passes.AssignDartIds(t, n, Passes.Written).0;
      assert [c] + (r + [u]) == [c] + r + [u];
    }
  }

  lemma AssignOneMore(cs: seq<Tree>, i: nat, id: nat)
    requires i < |cs|
    ensures var r := Passes.AssignChildren(cs[..i], id, Passes.Written);
      var u := Passes.AssignDartIds(cs[i], r.1, Passes.Written);
      var s := Passes.AssignChildren(cs[..i + 1], id, Passes.Written);
      s.0 == r.0 + [u.0] && s.1 == u.1
  {
    hide Passes.AssignDartIds, Passes.AssignChildren;
    assert cs[..i + 1] == cs[..i] + [cs[i]];
    AssignSnoc(cs[..i], cs[i], id);
  }

  lemma DelNone(cs: seq<Tree>, path: string, keep: set<string>, drivers: seq<seq<byte>>, lossy: seq<byte> -> string)
    ensures Passes.DelCompatAll(cs[..0], path, keep, drivers, lossy) == []
  {
  }

  lemma {:induction false} DelSnoc(cs: seq<Tree>, t: Tree, path: string, keep: set<string>, drivers: seq<seq<byte>>,
                                   lossy: seq<byte> -> string)
    ensures Passes.DelCompatAll(cs + [t], path, keep, drivers, lossy)
      == Passes.DelCompatAll(cs, path, keep, drivers, lossy)
         + [Passes.DelCompat(t, Passes.ChildPath(path, Passes.NodeName(t.props, lossy)), keep, drivers, lossy)]
    decreases |cs|
  {
    hide Passes.DelCompat, Passes.ChildPath, Passes.NodeName;
    if cs == [] {
      assert cs + [t] == [t] && [t][1..] == [];
    } else {
      assert (cs + [t])[1..] == cs[1..] + [t];
      DelSnoc(cs[1..], t, path, keep, drivers, lossy);
    }
  }

  lemma DelOneMore(cs: seq<Tree>, i: nat, path: string, keep: set<string>, drivers: seq<seq<byte>>,
                   lossy: seq<byte> -> string)
    requires i < |cs|
    ensures Passes.DelCompatAll(cs[..i + 1], path, keep, drivers, lossy)
      == Passes.DelCompatAll(cs[..i], path, keep, drivers, lossy)
         + [Passes.DelCompat(cs[i], Passes.ChildPath(path, Passes.NodeName(cs[i].props, lossy)), keep, drivers, lossy)]
  {
    hide Passes.DelCompat, Passes.DelCompatAll, Passes.ChildPath, Passes.NodeName;
    assert cs[..i + 1] == cs[..i] + [cs[i]];
    DelSnoc(cs[..i], cs[i], path, keep, drivers, lossy);
  }
}
