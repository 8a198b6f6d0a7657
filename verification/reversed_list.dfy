/** A model of `DemoApp`: building a singly linked list from an array, and printing its
    elements in reverse order, once by recursion and once through a stack.

    What the print routines write to the console is modelled as the sequence of tokens
    they print: `Elem(x)` for an element and `Arrow` for the separator `" -> "`. */
module ReversedLinkedList {

  /** A list node with fields `element` and `next`. */
  class Node<T> {
    var element: T
    var next: Node?<T>

    constructor (element: T)
      ensures this.element == element && next == null
    {
      this.element := element;
      next := null;
    }
  }

  /** One printed piece: an element, or the separator `" -> "`. */
  datatype Token<T> = Elem(x: T) | Arrow

  // ---------------------------------------------------------------------------
  // Chains of nodes

  /** Following `next` from `head` visits exactly the distinct nodes `nodes`, in order, and
      then reaches `null`. */
  ghost predicate IsChain<T>(head: Node?<T>, nodes: seq<Node<T>>)
    reads nodes
  {
    && (if nodes == [] then head == null else head == nodes[0] && nodes[|nodes| - 1].next == null)
    && (forall i :: 0 <= i < |nodes| - 1 ==> nodes[i].next == nodes[i + 1])
    && (forall i, j :: 0 <= i < j < |nodes| ==> nodes[i] != nodes[j])
  }

  /** The elements of `nodes`, in order. */
  ghost function Elements<T>(nodes: seq<Node<T>>): (xs: seq<T>)
    reads nodes
    ensures |xs| == |nodes| && forall i :: 0 <= i < |nodes| ==> xs[i] == nodes[i].element
  {
    if nodes == [] then [] else [nodes[0].element] + Elements(nodes[1..])
  }

  // ---------------------------------------------------------------------------
  // What is printed

  /** `xs` in reverse order. */
  function Reverse<T>(xs: seq<T>): seq<T> {
    if xs == [] then [] else [xs[|xs| - 1]] + Reverse(xs[..|xs| - 1])
  }

  /** The tokens printed for `xs`: its elements, separated by arrows. */
  function Joined<T>(xs: seq<T>): seq<Token<T>> {
    if xs == [] then []
    else if |xs| == 1 then [Elem(xs[0])]
    else [Elem(xs[0]), Arrow] + Joined(xs[1..])
  }

  /** The elements among printed tokens, with the arrows dropped. */
  function Unjoin<T>(ts: seq<Token<T>>): seq<T> {
    if ts == [] then []
    else if ts[0].Elem? then [ts[0].x] + Unjoin(ts[1..])
    else Unjoin(ts[1..])
  }

  /** Position `i` of the reverse holds the element `i` places from the end. */
  lemma {:induction false} ReverseAt<T>(xs: seq<T>)
    ensures |Reverse(xs)| == |xs|
    ensures forall i :: 0 <= i < |xs| ==> Reverse(xs)[i] == xs[|xs| - 1 - i]
  {
    if xs != [] {
      ReverseAt(xs[..|xs| - 1]);
    }
  }

  /** Reversing twice gives the sequence back. */
  lemma ReverseReverse<T>(xs: seq<T>)
    ensures Reverse(Reverse(xs)) == xs
  {
    ReverseAt(xs);
    ReverseAt(Reverse(xs));
  }

  /** The first element ends up last. */
  lemma {:induction false} ReverseCons<T>(x: T, xs: seq<T>)
    ensures Reverse([x] + xs) == Reverse(xs) + [x]
  {
    if xs != [] {
      assert ([x] + xs)[..|xs|] == [x] + xs[..|xs| - 1];
      ReverseCons(x, xs[..|xs| - 1]);
    } else {
      assert ([x] + xs)[..0] == [];
    }
  }

  /** Printing one more element at the end prints one more arrow and that element. */
  lemma {:induction false} JoinedSnoc<T>(xs: seq<T>, y: T)
    requires xs != []
    ensures Joined(xs + [y]) == Joined(xs) + [Arrow, Elem(y)]
  {
    if |xs| > 1 {
      JoinedSnoc(xs[1..], y);
      assert (xs + [y])[1..] == xs[1..] + [y];
    }
  }

  /** The printed tokens alternate: element `i` of `xs` at position `2 * i`, an arrow
      between consecutive elements, and nothing after the last element. */
  lemma {:induction false} JoinedAt<T>(xs: seq<T>)
    ensures |Joined(xs)| == if xs == [] then 0 else 2 * |xs| - 1
    ensures forall i :: 0 <= i < |xs| ==> Joined(xs)[2 * i] == Elem(xs[i])
    ensures forall i :: 0 <= i < |xs| - 1 ==> Joined(xs)[2 * i + 1] == Arrow
  {
    if |xs| > 1 {
      JoinedAt(xs[1..]);
      var rest := Joined(xs[1..]);
      assert Joined(xs) == [Elem(xs[0]), Arrow] + rest;
      forall i | 1 <= i < |xs| ensures Joined(xs)[2 * i] == Elem(xs[i]) {
        assert Joined(xs)[2 * i] == rest[2 * (i - 1)];
      }
      forall i | 1 <= i < |xs| - 1 ensures Joined(xs)[2 * i + 1] == Arrow {
        assert Joined(xs)[2 * i + 1] == rest[2 * (i - 1) + 1];
      }
    }
  }

  /** Reading the elements back from the printed tokens gives the printed sequence. */
  lemma {:induction false} UnjoinJoined<T>(xs: seq<T>)
    ensures Unjoin(Joined(xs)) == xs
  {
    if |xs| > 1 {
      UnjoinJoined(xs[1..]);
      var ts := Joined(xs);
      assert ts[1..][1..] == Joined(xs[1..]);
    } else if |xs| == 1 {
      assert Joined(xs)[1..] == [];
    }
  }

  // ---------------------------------------------------------------------------
  // The operations

  /** `createLinkedList(elements...)`: `null` for a `null` or empty array; otherwise a chain
      of new nodes holding the array's elements in order. */
  method CreateLinkedList<T>(elements: array?<T>) returns (head: Node?<T>, ghost nodes: seq<Node<T>>)
    ensures IsChain(head, nodes)
    ensures head == null <==> elements == null || elements.Length == 0
    ensures elements != null ==> Elements(nodes) == elements[..]
    ensures forall i :: 0 <= i < |nodes| ==> fresh(nodes[i])
  {
    if elements == null || elements.Length == 0 {
      return null, [];
    }
    head := new Node(elements[0]);
    var currentNode := head;
    nodes := [head];
    for i := 1 to elements.Length
      invariant |nodes| == i && currentNode == nodes[i - 1]
      invariant IsChain(head, nodes)
      invariant forall j :: 0 <= j < i ==> nodes[j].element == elements[j] && fresh(nodes[j])
    {
      var node := new Node(elements[i]);
      currentNode.next := node;
      currentNode := currentNode.next;
      nodes := nodes + [node];
    }
    assert Elements(nodes) == elements[..];
  }

  /** `printReversedRecursively(head)`: prints the rest of the list reversed first, then an
      arrow and the head's element. It changes nothing (it has no `modifies` clause). */
  method PrintReversedRecursively<T>(head: Node<T>, ghost nodes: seq<Node<T>>) returns (out: seq<Token<T>>)
    requires IsChain(head, nodes)
    ensures out == Joined(Reverse(Elements(nodes)))
    ensures |nodes| == 1 ==> out == [Elem(head.element)]
    decreases |nodes|
  {
    assert |nodes| > 1 ==> head.next == nodes[1];
    if head.next == null {
      out := [Elem(head.element)];
    } else {
      // The source's `while (head.next != null)` returns at the end of its first
      // iteration, so it runs at most once.
      var rest := PrintReversedRecursively(head.next, nodes[1..]);
      out := rest + [Arrow, Elem(head.element)];
      var tail := Elements(nodes[1..]);
      assert Elements(nodes) == [head.element] + tail;
      ReverseCons(head.element, tail);
      ReverseAt(tail);
      JoinedSnoc(Reverse(tail), head.element);
    }
  }

  /** `printReversedUsingStack(head)`: pushes every element on a stack, walking from the
      head, then pops and prints them, with an arrow after each one but the last. It
      changes nothing (it has no `modifies` clause). The stack is a sequence whose last
      element is the top. */
  method PrintReversedUsingStack<T>(head: Node<T>, ghost nodes: seq<Node<T>>) returns (out: seq<Token<T>>)
    requires IsChain(head, nodes)
    ensures out == Joined(Reverse(Elements(nodes)))
    ensures |nodes| == 1 ==> out == [Elem(head.element)]
  {
    var printStack := [head.element];
    var currentNode := head.next;
    ghost var i := 1;
    while currentNode != null
      invariant 1 <= i <= |nodes|
      invariant currentNode == if i < |nodes| then nodes[i] else null
      invariant printStack == Elements(nodes)[..i]
      decreases |nodes| - i
    {
      printStack := printStack + [currentNode.element];
      currentNode := currentNode.next;
      i := i + 1;
    }
    assert printStack == Elements(nodes);
    out := [];
    while printStack != []
      invariant out + Joined(Reverse(printStack)) == Joined(Reverse(Elements(nodes)))
    {
      var top := printStack[|printStack| - 1];
      printStack := printStack[..|printStack| - 1];
      out := out + [Elem(top)];
      if printStack != [] {
        out := out + [Arrow];
      }
    }
  }

  /** The example of the documentation: 4, 3, 9, 1 reversed and joined is `1 -> 9 -> 3 -> 4`. */
  lemma ExampleOutput()
    ensures Joined(Reverse([4, 3, 9, 1])) == [Elem(1), Arrow, Elem(9), Arrow, Elem(3), Arrow, Elem(4)]
  {
    ReverseAt([4, 3, 9, 1]);
    assert Reverse([4, 3, 9, 1]) == [1, 9, 3, 4];
    JoinedAt([1, 9, 3, 4]);
  }

  /** `main`: the list 4, 3, 9, 1 is printed as `1 -> 9 -> 3 -> 4` by both routines. */
  method Demo() returns (recursive: seq<Token<int>>, stacked: seq<Token<int>>)
    ensures recursive == stacked == [Elem(1), Arrow, Elem(9), Arrow, Elem(3), Arrow, Elem(4)]
  {
    var elements := new int[4] [4, 3, 9, 1];
    var head, nodes := CreateLinkedList(elements);
    assert elements[..] == [4, 3, 9, 1];
    ExampleOutput();
    recursive := PrintReversedRecursively(head, nodes);
    stacked := PrintReversedUsingStack(head, nodes);
  }
}
