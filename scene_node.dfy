/**
 * Scene-graph bookkeeping: the parent/child links between scene nodes and
 * the attachment links between nodes and components.
 *
 * Each link is kept on both sides (`parent` and `children`, `node` and
 * `components`), and the methods call each other to update the other side,
 * exactly as the engine does.  Transforms and locking are not part of this
 * model.
 */
module Scene {

  class SceneNode {
    /** `m_parent`. */
    var parent: SceneNode?
    /** `m_children`. */
    var children: set<SceneNode>
    /** `m_components`. */
    var components: set<Component>

    constructor()
      ensures parent == null && children == {} && components == {}
    {
      parent := null;
      children := {};
      components := {};
    }

    /** `AddChild`: the child points at this node and is one of its children; its old parent is not told. */
    method AddChild(child: SceneNode)
      modifies this`children, child`parent
      ensures child.parent == this
      ensures children == old(children) + {child}
    {
      child.parent := this;
      children := children + {child};
    }

    /** `RemoveChild`: the child no longer has a parent and is not among the children (whether or not it was one). */
    method RemoveChild(child: SceneNode)
      modifies this`children, child`parent
      ensures child.parent == null
      ensures children == old(children) - {child}
    {
      child.parent := null;
      children := children - {child};
    }

    predicate HasChild(child: SceneNode)
      reads this
    {
      child in children
    }

    /** `SetParent`: leave the old parent, if any, then become a child of `p`. */
    method SetParent(p: SceneNode)
      modifies this`parent, p`children, (if parent == null then {} else {parent})`children
      ensures parent == p
      ensures p.children == old(p.children) + {this}
      ensures old(parent) != null && old(parent) != p ==> old(parent).children == old(parent.children) - {this}
    {
      if parent != null {
        parent.RemoveChild(this);
      }
      p.AddChild(this);
    }

    /** Node `Attach`: record the component, then have it point back here unless it already does. */
    method Attach(c: Component)
      modifies this`components, c`node, (if c.node == null then {} else {c.node})`components
      ensures components == old(components) + {c}
      ensures c.node == this
      ensures old(c.node) != null && old(c.node) != this ==> old(c.node).components == old(c.node.components) - {c}
      decreases if c.node == this then 0 else 4
    {
      components := components + {c};
      if !c.IsAttachedTo(this) {
        c.Attach(this);
      }
    }

    /** Node `Dettach`: only a component that points at this node is removed and told to detach. */
    method Dettach(c: Component)
      modifies this`components, c`node
      ensures old(c.node) == this ==> components == old(components) - {c} && c.node == null
      ensures old(c.node) != this ==> components == old(components) && c.node == old(c.node)
      decreases 1
    {
      if c.IsAttachedTo(this) {
        components := components - {c};
        c.Dettach();
      }
    }

    predicate IsAttached(c: Component)
      reads this
    {
      c in components
    }
  }

  class Component {
    /** `m_node`: the node this component is attached to. */
    var node: SceneNode?

    constructor()
      ensures node == null
    {
      node := null;
    }

    /** `Component::Attach`: detach from any previous node, then attach to `n` on both sides. */
    method Attach(n: SceneNode)
      modifies this`node, n`components, (if node == null then {} else {node})`components
      ensures node == n
      ensures n.components == old(n.components) + {this}
      ensures old(node) != null && old(node) != n ==> old(node).components == old(node.components) - {this}
      decreases 3
    {
      if node != null {
        Dettach();
      }
      node := n;
      n.Attach(this);
    }

    /**
     * `Component::Dettach`: leave the node on both sides.  The engine
     * dereferences `m_node` unconditionally, so the component must be
     * attached.
     */
    method Dettach()
      requires node != null
      modifies this`node, node`components
      ensures node == null
      ensures old(node).components == old(node.components) - {this}
      decreases if this in node.components then 2 else 0
    {
      if node.IsAttached(this) {
        node.Dettach(this);
      }
      node := null;
    }

    predicate IsAttachedTo(n: SceneNode?)
      reads this
    {
      node == n
    }

    predicate IsAttached()
      reads this
    {
      node != null
    }
  }

  /** The parent/child links among `nodes` agree on both sides and stay within `nodes`. */
  ghost predicate Tree(nodes: set<SceneNode>)
    reads nodes
  {
    (forall n, m | n in nodes && m in nodes :: m in n.children <==> m.parent == n)
    && (forall n | n in nodes :: n.children <= nodes && (n.parent != null ==> n.parent in nodes))
  }

  /** The attachment links between `nodes` and `comps` agree on both sides and stay within them. */
  ghost predicate Linked(nodes: set<SceneNode>, comps: set<Component>)
    reads nodes, comps
  {
    (forall n, c | n in nodes && c in comps :: c in n.components <==> c.node == n)
    && (forall n | n in nodes :: n.components <= comps)
    && (forall c | c in comps :: c.node != null ==> c.node in nodes)
  }

  /**
   * The change `SetParent` makes to node `x` (moving it from its old parent
   * `q` to `p`, nothing else changing) keeps the parent/child links
   * two-sided.
   */
  twostate lemma SetParentKeepsTree(nodes: set<SceneNode>, x: SceneNode, p: SceneNode, q: SceneNode?)
    requires old(Tree(nodes)) && x in nodes && p in nodes && q == old(x.parent)
    requires x.parent == p && p.children == old(p.children) + {x}
    requires q != null && q != p ==> q.children == old(q.children) - {x}
    requires forall n | n in nodes && n != x :: n.parent == old(n.parent)
    requires forall n | n in nodes && n != p && n != q :: n.children == old(n.children)
    ensures Tree(nodes)
  {
  }

  /**
   * The change either `Attach` makes (component `c` moves from its old node
   * `m` to node `x`, nothing else changing) keeps the attachment links
   * two-sided.
   */
  twostate lemma AttachKeepsLinks(nodes: set<SceneNode>, comps: set<Component>, x: SceneNode, c: Component, m: SceneNode?)
    requires old(Linked(nodes, comps)) && x in nodes && c in comps && m == old(c.node)
    requires c.node == x && x.components == old(x.components) + {c}
    requires m != null && m != x ==> m.components == old(m.components) - {c}
    requires forall n | n in nodes && n != x && n != m :: n.components == old(n.components)
    requires forall d | d in comps && d != c :: d.node == old(d.node)
    ensures Linked(nodes, comps)
  {
  }

  /** The change either `Dettach` makes (component `c` leaves its node `m`, nothing else changing) keeps the attachment links two-sided. */
  twostate lemma DettachKeepsLinks(nodes: set<SceneNode>, comps: set<Component>, c: Component, m: SceneNode)
    requires old(Linked(nodes, comps)) && c in comps && m == old(c.node)
    requires c.node == null && m.components == old(m.components) - {c}
    requires forall n | n in nodes && n != m :: n.components == old(n.components)
    requires forall d | d in comps && d != c :: d.node == old(d.node)
    ensures Linked(nodes, comps)
  {
  }
}
