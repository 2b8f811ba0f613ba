/** Resolving a shared server tree in the browser: resolveServerTree of export/src/area-routes.tsx.

    An async component is given by what its promise settles with, a tree or a thrown error; a tree whose
    components expand forever has no value here, which is the rank under which the recursion terminates. */
module ServerTree {
  import opened Wrappers

  type Thrown = string

  /** A rendered value. `tag` stands for an element's type, key and other props. */
  datatype Node =
    | Leaf(text: string)
    | Fragment(items: seq<Node>)
    | Element(tag: string, children: Children)
    | Async(tag: string, props: Children, settles: Result<Node, Thrown>)

  datatype Children = Absent | RenderProp(name: string) | Given(node: Node)

  function Resolve(node: Node): Result<Node, Thrown>
    decreases node
  {
    match node
    case Leaf(_) => Ok(node)
    case Fragment(children) =>
      (match ResolveAll(children)
       case Ok(resolved) => Ok(Fragment(resolved))
       case Err(e) => Err(e))
    case Async(_, _, settles) =>
      (match settles
       case Ok(returned) => Resolve(returned)
       case Err(e) => Err(e))
    case Element(tag, children) =>
      match children
      case Given(child) =>
        (match Resolve(child)
         case Ok(resolved) => Ok(Element(tag, Given(resolved)))
         case Err(e) => Err(e))
      case _ => Ok(node)
  }

  /** Every child is resolved; of several errors one wins. */
  function ResolveAll(nodes: seq<Node>): Result<seq<Node>, Thrown>
    decreases nodes
  {
    if nodes == [] then Ok([])
    else
      match Resolve(nodes[0])
      case Err(e) => Err(e)
      case Ok(first) =>
        match ResolveAll(nodes[1..])
        case Err(e) => Err(e)
        case Ok(rest) => Ok([first] + rest)
  }

  /** No async component is reachable through children: what React can render. */
  predicate Renderable(node: Node)
    decreases node
  {
    match node
    case Leaf(_) => true
    case Fragment(children) => RenderableAll(children)
    case Async(_, _, _) => false
    case Element(_, Given(child)) => Renderable(child)
    case Element(_, _) => true
  }

  predicate RenderableAll(nodes: seq<Node>)
    decreases nodes
  {
    nodes == [] || (Renderable(nodes[0]) && RenderableAll(nodes[1..]))
  }

  /** Some awaited component, reachable through children and expansions, throws e. */
  predicate Throws(node: Node, e: Thrown)
    decreases node
  {
    match node
    case Leaf(_) => false
    case Fragment(children) => ThrowsSome(children, e)
    case Async(_, _, Ok(returned)) => Throws(returned, e)
    case Async(_, _, Err(thrown)) => thrown == e
    case Element(_, Given(child)) => Throws(child, e)
    case Element(_, _) => false
  }

  predicate ThrowsSome(nodes: seq<Node>, e: Thrown)
    decreases nodes
  {
    nodes != [] && (Throws(nodes[0], e) || ThrowsSome(nodes[1..], e))
  }

  /** What a reader of the rendered page meets, in order; an awaited component is what it returned. */
  datatype Token =
    | TextOf(text: string) | Open(tag: string) | Close | Begin | End | Call(name: string) | Raise(error: Thrown)

  function Rendering(node: Node): seq<Token>
    decreases node
  {
    match node
    case Leaf(text) => [TextOf(text)]
    case Fragment(children) => [Begin] + RenderingAll(children) + [End]
    case Async(_, _, Ok(returned)) => Rendering(returned)
    case Async(_, _, Err(e)) => [Raise(e)]
    case Element(tag, Given(child)) => [Open(tag)] + Rendering(child) + [Close]
    case Element(tag, RenderProp(name)) => [Open(tag), Call(name), Close]
    case Element(tag, Absent) => [Open(tag), Close]
  }

  function RenderingAll(nodes: seq<Node>): seq<Token>
    decreases nodes
  {
    if nodes == [] then [] else Rendering(nodes[0]) + RenderingAll(nodes[1..])
  }

  /** Resolution preserves meaning: the resolved tree renders, in order, what the original would with every
      component awaited in place. */
  lemma {:induction false} ResolutionKeepsRendering(node: Node)
    ensures Resolve(node).Ok? ==> Rendering(Resolve(node).value) == Rendering(node)
    decreases node
  {
    match node
    case Leaf(_) =>
    case Fragment(children) => AllKeepRendering(children);
    case Async(_, _, settles) => if settles.Ok? { ResolutionKeepsRendering(settles.value); }
    case Element(_, children) => if children.Given? { ResolutionKeepsRendering(children.node); }
  }

  lemma {:induction false} AllKeepRendering(nodes: seq<Node>)
    ensures ResolveAll(nodes).Ok? ==> RenderingAll(ResolveAll(nodes).value) == RenderingAll(nodes)
    decreases nodes
  {
    if nodes != [] {
      ResolutionKeepsRendering(nodes[0]);
      AllKeepRendering(nodes[1..]);
      if ResolveAll(nodes).Ok? {
        var first, rest := Resolve(nodes[0]).value, ResolveAll(nodes[1..]).value;
        assert ([first] + rest)[1..] == rest;
      }
    }
  }

  lemma {:induction false} ResolvedIsRenderable(node: Node)
    ensures Resolve(node).Ok? ==> Renderable(Resolve(node).value)
    decreases node
  {
    match node
    case Leaf(_) =>
    case Fragment(children) => AllRenderable(children);
    case Async(_, _, settles) => if settles.Ok? { ResolvedIsRenderable(settles.value); }
    case Element(_, children) => if children.Given? { ResolvedIsRenderable(children.node); }
  }

  lemma {:induction false} AllRenderable(nodes: seq<Node>)
    ensures ResolveAll(nodes).Ok? ==> RenderableAll(ResolveAll(nodes).value)
    decreases nodes
  {
    if nodes != [] {
      ResolvedIsRenderable(nodes[0]);
      AllRenderable(nodes[1..]);
    }
  }

  /** An async-free tree is preserved exactly. */
  lemma {:induction false} RenderableIsKept(node: Node)
    requires Renderable(node)
    ensures Resolve(node) == Ok(node)
    decreases node
  {
    match node
    case Leaf(_) =>
    case Fragment(children) => AllKept(children);
    case Element(_, children) => if children.Given? { RenderableIsKept(children.node); }
  }

  lemma {:induction false} AllKept(nodes: seq<Node>)
    requires RenderableAll(nodes)
    ensures ResolveAll(nodes) == Ok(nodes)
    decreases nodes
  {
    if nodes != [] {
      RenderableIsKept(nodes[0]);
      AllKept(nodes[1..]);
      assert nodes == [nodes[0]] + nodes[1..];
    }
  }

  /** Resolution changes a tree exactly when it has an async component, leaves none, and is idempotent. */
  lemma ResolutionIsIdempotent(node: Node)
    ensures Resolve(node).Ok? ==>
              Renderable(Resolve(node).value) && Resolve(Resolve(node).value) == Resolve(node)
    ensures Renderable(node) <==> Resolve(node) == Ok(node)
  {
    ResolvedIsRenderable(node);
    if Renderable(node) {
      RenderableIsKept(node);
    }
    if Resolve(node).Ok? {
      RenderableIsKept(Resolve(node).value);
    }
  }

  /** Resolution fails exactly when some reachable component throws, and then with an error one of them threw. */
  lemma {:induction false} FailsWithAThrow(node: Node)
    ensures Resolve(node).Err? ==> Throws(node, Resolve(node).error)
    ensures forall e :: Throws(node, e) ==> Resolve(node).Err?
    decreases node
  {
    match node
    case Leaf(_) =>
    case Fragment(children) => SomeThrows(children);
    case Async(_, _, settles) => if settles.Ok? { FailsWithAThrow(settles.value); }
    case Element(_, children) => if children.Given? { FailsWithAThrow(children.node); }
  }

  lemma {:induction false} SomeThrows(nodes: seq<Node>)
    ensures ResolveAll(nodes).Err? ==> ThrowsSome(nodes, ResolveAll(nodes).error)
    ensures forall e :: ThrowsSome(nodes, e) ==> ResolveAll(nodes).Err?
    decreases nodes
  {
    if nodes != [] {
      FailsWithAThrow(nodes[0]);
      SomeThrows(nodes[1..]);
    }
  }
}
