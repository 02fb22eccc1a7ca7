/** A mutable trie: a tree of nodes, each with a value and children by label. */
module Tries {

  class Node<L(==), V> {
    var children: map<L, Node<L, V>>
    var value: V

    constructor (value: V)
      ensures children == map[] && this.value == value
    {
      children, this.value := map[], value;
    }
  }

  function Parent<L>(p: seq<L>): seq<L>
    requires p != []
  {
    p[..|p| - 1]
  }

  lemma ParentOfChild<L>(p: seq<L>, l: L)
    ensures Parent(p + [l]) == p
  {
  }

  class Trie<L(==, !new), V> {
    const root: Node<L, V>
    /** The value of a path that was never set. */
    const blank: V
    /** The nodes by the path leading to them. */
    ghost var nodes: map<seq<L>, Node<L, V>>
    ghost var repr: set<Node<L, V>>

    ghost predicate Child(p: seq<L>, l: L)
      requires p in nodes && nodes[p] in repr
      reads this, repr
    {
      && (l in nodes[p].children <==> p + [l] in nodes)
      && (l in nodes[p].children ==> nodes[p].children[l] == nodes[p + [l]])
    }

    ghost predicate Valid()
      reads this, repr
    {
      && [] in nodes && nodes[[]] == root
      && (forall p, q :: p in nodes && q in nodes && p != q ==> nodes[p] != nodes[q])
      && (forall p :: p in nodes && p != [] ==> Parent(p) in nodes)
      && (forall p :: p in nodes ==> nodes[p] in repr)
      && (forall p, l {:trigger Child(p, l)} :: p in nodes ==> Child(p, l))
    }

    /** The value stored at a path. */
    ghost function At(p: seq<L>): V
      requires Valid()
      reads this, repr
    {
      if p in nodes then nodes[p].value else blank
    }

    constructor (blank: V)
      ensures Valid() && fresh(repr) && this.blank == blank
      ensures forall p :: At(p) == blank
    {
      var r := new Node<L, V>(blank);
      root, repr, this.blank := r, {r}, blank;
      nodes := map[[] := r];
    }

    lemma ChildNode(p: seq<L>, l: L)
      requires Valid() && p in nodes
      ensures nodes[p] in repr && (l in nodes[p].children <==> p + [l] in nodes)
      ensures l in nodes[p].children ==> nodes[p].children[l] == nodes[p + [l]]
    {
      assert Child(p, l);
    }

    /** Nothing lies below a path that is not in the trie. */
    lemma {:induction false} NothingBelow(p: seq<L>, q: seq<L>)
      requires Valid() && p !in nodes
      ensures p + q !in nodes && At(p + q) == blank
    {
      if q == [] {
        assert p + q == p;
      } else {
        NothingBelow(p, q[..|q| - 1]);
        assert Parent(p + q) == p + q[..|q| - 1];
      }
    }

    method AddChild(node: Node<L, V>, l: L, ghost p: seq<L>)
      requires Valid() && p in nodes && nodes[p] == node && l !in node.children
      modifies this`nodes, this`repr, node`children
      ensures Valid() && fresh(repr - old(repr)) && old(repr) <= repr
      ensures p + [l] in nodes && p in nodes && nodes[p] == node
      ensures forall q :: At(q) == old(At(q))
    {
      ghost var before := nodes;
      assert Child(p, l);
      var child := new Node<L, V>(blank);
      node.children := node.children[l := child];
      nodes := nodes[p + [l] := child];
      repr := repr + {child};
      ParentOfChild(p, l);
      forall q, m | q in nodes ensures Child(q, m) {
        ParentOfChild(q, m);
        if q in before {
          assert old(Child(q, m));
        }
      }
    }

    /** The child of the node at p for label l, created if missing. */
    method Descend(node: Node<L, V>, l: L, ghost p: seq<L>) returns (child: Node<L, V>)
      requires Valid() && p in nodes && nodes[p] == node
      modifies this`nodes, this`repr, node`children
      ensures Valid() && fresh(repr - old(repr)) && old(repr) <= repr
      ensures p + [l] in nodes && nodes[p + [l]] == child
      ensures forall q :: At(q) == old(At(q))
    {
      hide Child;
      if l !in node.children {
        AddChild(node, l, p);
      }
      ChildNode(p, l);
      child := node.children[l];
    }

    method SetValue(node: Node<L, V>, value: V, ghost p: seq<L>)
      requires Valid() && p in nodes && nodes[p] == node
      modifies node`value
      ensures Valid()
      ensures forall q :: At(q) == if q == p then value else old(At(q))
    {
      node.value := value;
      forall q, m | q in nodes ensures Child(q, m) {
        assert old(Child(q, m));
      }
    }
  }
}
