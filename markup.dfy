/**
 * The parsed markup tree both chunkers walk, the cleaning that runs before
 * the walk (`HTMLParser._get_clean_soup`) and the lookup of the body
 * element (`HTMLParser.parse`). The markup parser itself is not modelled:
 * its output is a parameter.
 */
module Markup {
  import opened Wrappers
  import opened TextUtil

  /**
   * A node of the parsed tree. `Special` stands for the parser's
   * preformatted strings (comments, declarations, processing instructions,
   * CDATA); the walk treats them like any other string.
   */
  datatype Node =
    | Text(text: string)
    | Special(text: string)
    | Element(name: string, children: seq<Node>)

  function Last<T>(s: seq<T>): T
    requires s != []
  {
    s[|s| - 1]
  }

  function Init<T>(s: seq<T>): seq<T>
    requires s != []
  {
    s[..|s| - 1]
  }

  /** The tags whose whole subtree the cleaning removes. */
  const RemovedTags: seq<string> := ["script", "style"]

  /**
   * The nodes that replace `n` after cleaning: nothing for a preformatted
   * string or a `script`/`style` element, otherwise `n` with cleaned children.
   */
  function CleanNode(n: Node): (r: seq<Node>)
    ensures IsClean(r)
    ensures IsCleanNode(n) ==> r == [n]
    decreases n
  {
    match n
    case Text(_) => [n]
    case Special(_) => []
    case Element(name, kids) => if name in RemovedTags then [] else [Element(name, Clean(kids))]
  }

  /**
   * `_get_clean_soup`: drop every preformatted string and every
   * `script`/`style` subtree, keeping the rest in order. Nothing that should
   * go is left anywhere in the result, and a tree that holds none of it is
   * left as it is.
   */
  function Clean(ns: seq<Node>): (r: seq<Node>)
    ensures IsClean(r)
    ensures IsClean(ns) ==> r == ns
    decreases ns
  {
    if ns == [] then []
    else
      var a, b := Clean(Init(ns)), CleanNode(Last(ns));
      assert forall i :: 0 <= i < |a + b| ==> (a + b)[i] == if i < |a| then a[i] else b[i - |a|];
      assert forall i :: 0 <= i < |Init(ns)| ==> Init(ns)[i] == ns[i];
      assert Init(ns) + [Last(ns)] == ns;
      a + b
  }

  /** No preformatted string and no `script`/`style` element anywhere in `n`. */
  predicate IsCleanNode(n: Node)
    decreases n
  {
    match n
    case Text(_) => true
    case Special(_) => false
    case Element(name, kids) => name !in RemovedTags && IsClean(kids)
  }

  predicate IsClean(ns: seq<Node>)
    decreases ns
  {
    forall i :: 0 <= i < |ns| ==> IsCleanNode(ns[i])
  }

  /** Cleaning twice is cleaning once. */
  lemma CleanIdempotent(ns: seq<Node>)
    ensures Clean(Clean(ns)) == Clean(ns)
  {
  }

  /**
   * The strings that cleaning keeps, read from the front: every non-blank
   * string outside preformatted strings and outside `script`/`style`
   * subtrees, stripped, in document order.
   */
  function KeptTexts(ns: seq<Node>): seq<string>
    decreases ns
  {
    if ns == [] then [] else NodeKeptTexts(ns[0]) + KeptTexts(ns[1..])
  }

  function NodeKeptTexts(n: Node): seq<string>
    decreases n
  {
    match n
    case Text(s) => if IsBlank(Some(s)) then [] else [Strip(s)]
    case Special(_) => []
    case Element(name, kids) => if name in RemovedTags then [] else KeptTexts(kids)
  }

  /** Cleaning works sibling by sibling: it distributes over concatenation. */
  lemma {:induction false} CleanAppend(a: seq<Node>, b: seq<Node>)
    ensures Clean(a + b) == Clean(a) + Clean(b)
    decreases b
  {
    if b == [] {
      assert a + b == a;
    } else {
      assert Init(a + b) == a + Init(b);
      assert Last(a + b) == Last(b);
      CleanAppend(a, Init(b));
    }
  }

  lemma {:induction false} TextsAppend(a: seq<Node>, b: seq<Node>)
    ensures Texts(a + b) == Texts(a) + Texts(b)
    decreases b
  {
    if b == [] {
      assert a + b == a;
    } else {
      assert Init(a + b) == a + Init(b);
      assert Last(a + b) == Last(b);
      TextsAppend(a, Init(b));
    }
  }

  /**
   * Cleaning loses no other text: the strings of the cleaned tree are
   * exactly those outside preformatted strings and `script`/`style`
   * subtrees, in order.
   */
  lemma {:induction false} CleanKeepsTexts(ns: seq<Node>)
    ensures Texts(Clean(ns)) == KeptTexts(ns)
    decreases ns
  {
    if ns != [] {
      assert ns == [ns[0]] + ns[1..];
      CleanAppend([ns[0]], ns[1..]);
      assert Clean([ns[0]]) == CleanNode(ns[0]) by {
        assert Init([ns[0]]) == [];
      }
      TextsAppend(CleanNode(ns[0]), Clean(ns[1..]));
      CleanNodeKeepsTexts(ns[0]);
      CleanKeepsTexts(ns[1..]);
    }
  }

  lemma {:induction false} CleanNodeKeepsTexts(n: Node)
    ensures Texts(CleanNode(n)) == NodeKeptTexts(n)
    decreases n
  {
    match n
    case Text(_) =>
      assert Texts([n]) == Texts([]) + NodeTexts(n);
    case Special(_) =>
    case Element(name, kids) =>
      if name !in RemovedTags {
        assert Texts([Element(name, Clean(kids))]) == Texts([]) + Texts(Clean(kids));
        CleanKeepsTexts(kids);
      }
  }

  /** One step of a tree read in document order: an element opens, a string, an element closes. */
  datatype Token = Open(name: string) | Str(text: string) | Pre(text: string) | Close

  /** The tree written out in document order, each element as its opening token, its content and a closing token. */
  function Tokens(ns: seq<Node>): seq<Token>
    decreases ns
  {
    if ns == [] then [] else NodeTokens(ns[0]) + Tokens(ns[1..])
  }

  function NodeTokens(n: Node): seq<Token>
    decreases n
  {
    match n
    case Text(s) => [Str(s)]
    case Special(s) => [Pre(s)]
    case Element(name, kids) => [Open(name)] + Tokens(kids) + [Close]
  }

  /**
   * What cleaning keeps, as tokens: everything outside preformatted strings
   * and outside `script`/`style` subtrees, in document order, with every
   * surviving element still opening and closing around what it held.
   */
  function KeptTokens(ns: seq<Node>): seq<Token>
    decreases ns
  {
    if ns == [] then [] else NodeKeptTokens(ns[0]) + KeptTokens(ns[1..])
  }

  function NodeKeptTokens(n: Node): seq<Token>
    decreases n
  {
    match n
    case Text(s) => [Str(s)]
    case Special(_) => []
    case Element(name, kids) => if name in RemovedTags then [] else [Open(name)] + KeptTokens(kids) + [Close]
  }

  lemma {:induction false} TokensAppend(a: seq<Node>, b: seq<Node>)
    ensures Tokens(a + b) == Tokens(a) + Tokens(b)
    decreases a
  {
    if a == [] {
      assert a + b == b;
    } else {
      assert (a + b)[0] == a[0] && (a + b)[1..] == a[1..] + b;
      TokensAppend(a[1..], b);
    }
  }

  /**
   * Cleaning keeps the structure of everything it does not remove: the
   * cleaned tree reads, token by token, exactly as the input with the
   * preformatted strings and `script`/`style` subtrees cut out.
   */
  lemma {:induction false} CleanKeepsStructure(ns: seq<Node>)
    ensures Tokens(Clean(ns)) == KeptTokens(ns)
    decreases ns
  {
    if ns != [] {
      assert ns == [ns[0]] + ns[1..];
      CleanAppend([ns[0]], ns[1..]);
      assert Clean([ns[0]]) == CleanNode(ns[0]) by {
        assert Init([ns[0]]) == [];
      }
      TokensAppend(CleanNode(ns[0]), Clean(ns[1..]));
      CleanNodeKeepsStructure(ns[0]);
      CleanKeepsStructure(ns[1..]);
    }
  }

  lemma {:induction false} CleanNodeKeepsStructure(n: Node)
    ensures Tokens(CleanNode(n)) == NodeKeptTokens(n)
    decreases n
  {
    match n
    case Text(_) =>
      assert Tokens([n]) == NodeTokens(n) + Tokens([]);
    case Special(_) =>
    case Element(name, kids) =>
      if name !in RemovedTags {
        var e := Element(name, Clean(kids));
        assert Tokens([e]) == NodeTokens(e) + Tokens([]);
        CleanKeepsStructure(kids);
      }
  }

  /** Some element named `name` occurs in `n`, `n` itself included. */  /** Some element named `name` occurs in `n`, `n` itself included. */
  predicate NodeContains(n: Node, name: string)
    decreases n
  {
    n.Element? && (n.name == name || Contains(n.children, name))
  }

  predicate Contains(ns: seq<Node>, name: string)
    decreases ns
  {
    exists i :: 0 <= i < |ns| && NodeContains(ns[i], name)
  }

  predicate Named(n: Node, name: string)
  {
    n.Element? && n.name == name
  }

  /** Every node of `ns` in document order: a node, then its descendants, then its following siblings. */
  function Preorder(ns: seq<Node>): seq<Node>
    decreases ns
  {
    if ns == [] then [] else NodePreorder(ns[0]) + Preorder(ns[1..])
  }

  function NodePreorder(n: Node): seq<Node>
    decreases n
  {
    [n] + (if n.Element? then Preorder(n.children) else [])
  }

  /** The first element named `name` in the list `ps`, if any. */
  function FirstNamed(ps: seq<Node>, name: string): (r: Option<Node>)
    ensures r.Some? ==> exists i :: 0 <= i < |ps| && ps[i] == r.value && Named(ps[i], name) &&
                                    forall j :: 0 <= j < i ==> !Named(ps[j], name)
    ensures r.None? ==> forall j :: 0 <= j < |ps| ==> !Named(ps[j], name)
  {
    if ps == [] then None
    else if Named(ps[0], name) then Some(ps[0])
    else
      assert forall j :: 1 <= j < |ps| ==> ps[j] == ps[1..][j - 1];
      FirstNamed(ps[1..], name)
  }

  lemma {:induction false} FirstNamedAppend(a: seq<Node>, b: seq<Node>, name: string)
    ensures FirstNamed(a + b, name) == if FirstNamed(a, name).Some? then FirstNamed(a, name) else FirstNamed(b, name)
  {
    if a == [] {
      assert a + b == b;
    } else {
      assert (a + b)[0] == a[0];
      assert (a + b)[1..] == a[1..] + b;
      FirstNamedAppend(a[1..], b, name);
    }
  }

  /**
   * The parser's `find`: the first element named `name` in document order
   * (depth first, a node before its children, children before the
   * following siblings).
   */
  function Find(ns: seq<Node>, name: string): (r: Option<Node>)
    ensures r == FirstNamed(Preorder(ns), name)
    ensures r.Some? ==> r.value.Element? && r.value.name == name
    decreases ns
  {
    if ns == [] then None
    else
      FirstNamedAppend(NodePreorder(ns[0]), Preorder(ns[1..]), name);
      match FindInNode(ns[0], name)
      case Some(n) => Some(n)
      case None => Find(ns[1..], name)
  }

  function FindInNode(n: Node, name: string): (r: Option<Node>)
    ensures r == FirstNamed(NodePreorder(n), name)
    ensures r.Some? ==> r.value.Element? && r.value.name == name
    decreases n
  {
    FirstNamedAppend([n], if n.Element? then Preorder(n.children) else [], name);
    assert [n][1..] == [];
    if !n.Element? then None
    else if n.name == name then Some(n)
    else Find(n.children, name)
  }

  /** The search finds an element exactly when one occurs. */
  lemma {:induction false} FindFinds(ns: seq<Node>, name: string)
    ensures Find(ns, name).Some? <==> Contains(ns, name)
    decreases ns
  {
    if ns != [] {
      FindInNodeFinds(ns[0], name);
      FindFinds(ns[1..], name);
      if Contains(ns, name) && !NodeContains(ns[0], name) {
        var i :| 0 <= i < |ns| && NodeContains(ns[i], name);
        assert ns[1..][i - 1] == ns[i];
      }
      if Contains(ns[1..], name) {
        var i :| 0 <= i < |ns[1..]| && NodeContains(ns[1..][i], name);
        assert ns[i + 1] == ns[1..][i];
      }
    }
  }

  lemma {:induction false} FindInNodeFinds(n: Node, name: string)
    ensures FindInNode(n, name).Some? <==> NodeContains(n, name)
    decreases n
  {
    if n.Element? && n.name != name {
      FindFinds(n.children, name);
    }
  }

  /** What the search returns from a clean tree is itself clean. */
  lemma {:induction false} FindInClean(ns: seq<Node>, name: string)
    requires IsClean(ns)
    ensures Find(ns, name).Some? ==> IsCleanNode(Find(ns, name).value)
    decreases ns
  {
    if ns != [] {
      FindInCleanNode(ns[0], name);
      FindInClean(ns[1..], name);
    }
  }

  lemma {:induction false} FindInCleanNode(n: Node, name: string)
    requires IsCleanNode(n)
    ensures FindInNode(n, name).Some? ==> IsCleanNode(FindInNode(n, name).value)
    decreases n
  {
    if n.Element? && n.name != name {
      FindInClean(n.children, name);
    }
  }

  /**
   * `HTMLParser.parse`: no body for a blank or absent input; otherwise the
   * first `body` element, in document order, of the cleaned tree the markup
   * parser produced for it (`parsed`).
   */
  function Body(html: Option<string>, parsed: seq<Node>): (r: Option<Node>)
    ensures IsBlank(html) ==> r == None
    ensures !IsBlank(html) ==> r == FirstNamed(Preorder(Clean(parsed)), "body")
    ensures !IsBlank(html) ==> (r.Some? <==> Contains(Clean(parsed), "body"))
    ensures r.Some? ==> r.value in Preorder(Clean(parsed))
    ensures r.Some? ==> r.value.Element? && r.value.name == "body" && IsCleanNode(r.value)
  {
    if IsBlank(html) then None
    else
      FindFinds(Clean(parsed), "body");
      FindInClean(Clean(parsed), "body");
      Find(Clean(parsed), "body")
  }

  /**
   * The text the walk sees in `ns`, in document order: every string node
   * that is not blank, stripped.
   */
  function Texts(ns: seq<Node>): (r: seq<string>)
    ensures forall k :: 0 <= k < |r| ==> r[k] != [] && IsTrimmed(r[k])
    decreases ns
  {
    if ns == [] then [] else Texts(Init(ns)) + NodeTexts(Last(ns))
  }

  function NodeTexts(n: Node): (r: seq<string>)
    ensures forall k :: 0 <= k < |r| ==> r[k] != [] && IsTrimmed(r[k])
    decreases n
  {
    match n
    case Element(_, kids) => Texts(kids)
    case _ => if IsBlank(Some(n.text)) then [] else [Strip(n.text)]
  }
}
