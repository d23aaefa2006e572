/** The stack toy of training/projects/stacks/stack_functions.py: three
    functions over one module-level list, a `Stack` class over a list of
    its own, and a `person` class whose `stack` parameter defaults to one
    `Stack` built when the class is defined.

    Both stacks push on and pop from the end of a Python list; Pushed and
    Popped are those two list operations on values, and every method here
    is stated through them. */
module StackFunctions {
  import opened Outcomes

  /** `list.append(x)`. */
  function Pushed<T>(s: seq<T>, x: T): (r: seq<T>)
    ensures |r| == |s| + 1 && r[|s|] == x && r[..|s|] == s
  {
    s + [x]
  }

  /** `list.pop()`: the last element and the list without it, or the
      IndexError that an empty list raises. */
  function Popped<T>(s: seq<T>): (r: Result<(T, seq<T>)>)
    ensures r.Err? <==> s == []
    ensures r.Err? ==> r.error == PopFromEmpty
    ensures r.Ok? ==> |r.value.1| == |s| - 1 && r.value.1 + [r.value.0] == s
  {
    if s == [] then Err(PopFromEmpty) else Ok((s[|s| - 1], s[..|s| - 1]))
  }

  /** Last in, first out: popping right after pushing x gives x back and
      the list as it was. */
  lemma LastInFirstOut<T>(s: seq<T>, x: T)
    ensures Popped(Pushed(s, x)) == Ok((x, s))
  {
    assert Pushed(s, x)[..|s|] == s;
  }

  /** Pushing and popping undo each other the other way round too: pushing
      back what was popped restores a non-empty list. */
  lemma PushBackWhatPopped<T>(s: seq<T>)
    requires s != []
    ensures Pushed(Popped(s).value.1, Popped(s).value.0) == s
  {
  }

  /** `list.extend(xs)`: pushing the elements of xs one by one. */
  function PushedAll<T>(s: seq<T>, xs: seq<T>): (r: seq<T>)
    ensures |r| == |s| + |xs| && r[..|s|] == s
    decreases |xs|
  {
    if xs == [] then s else PushedAll(Pushed(s, xs[0]), xs[1..])
  }

  /** Extending appends the elements in their order. */
  lemma {:induction false} PushedAllAppends<T>(s: seq<T>, xs: seq<T>)
    ensures PushedAll(s, xs) == s + xs
    decreases |xs|
  {
    if xs != [] {
      PushedAllAppends(Pushed(s, xs[0]), xs[1..]);
      assert Pushed(s, xs[0]) + xs[1..] == s + xs;
    }
  }

  /** Popping as often as xs is long after pushing xs gives its elements
      back last first and leaves the list as it was. */
  lemma {:induction false} PopsUndoPushes<T>(s: seq<T>, xs: seq<T>)
    ensures PopAll(PushedAll(s, xs), |xs|) == Ok((Reversed(xs), s))
    decreases |xs|
  {
    PushedAllAppends(s, xs);
    if xs != [] {
      var init, last := xs[..|xs| - 1], xs[|xs| - 1];
      assert s + xs == Pushed(s + init, last);
      LastInFirstOut(s + init, last);
      PopsUndoPushes(s, init);
      PushedAllAppends(s, init);
    }
  }

  /** xs backwards. */
  function Reversed<T>(xs: seq<T>): (r: seq<T>)
    ensures |r| == |xs|
    ensures forall k :: 0 <= k < |xs| ==> r[k] == xs[|xs| - 1 - k]
    decreases |xs|
  {
    if xs == [] then [] else [xs[|xs| - 1]] + Reversed(xs[..|xs| - 1])
  }

  /** Popping n times: the popped elements in the order they came out, and
      what is left; the error of the first pop that finds the list empty. */
  function PopAll<T>(s: seq<T>, n: nat): (r: Result<(seq<T>, seq<T>)>)
    ensures r.Err? <==> n > |s|
    ensures r.Ok? ==> r.value.1 == s[..|s| - n] && |r.value.0| == n
    decreases n
  {
    if n == 0 then Ok(([], s))
    else match Popped(s)
      case Err(e) => Err(e)
      case Ok((x, rest)) =>
        match PopAll(rest, n - 1)
        case Err(e) => Err(e)
        case Ok((out, left)) => Ok(([x] + out, left))
  }

  /** The module-level list `stack` and the functions `create`, `add` and
      `get` that work on it. */
  class StackModule<T> {
    var stack: seq<T>

    /** `stack = []`. */
    constructor()
      ensures stack == []
    {
      stack := [];
    }

    /** `create(*elements)`: clears the list, then extends it. */
    method Create(elements: seq<T>)
      modifies this
      ensures stack == elements
    {
      stack := [];
      stack := PushedAll(stack, elements);
      PushedAllAppends([], elements);
    }

    /** `add(element)`. */
    method Add(element: T)
      modifies this
      ensures stack == Pushed(old(stack), element)
    {
      stack := Pushed(stack, element);
    }

    /** `get()`: pops the last element; on an empty list the IndexError,
        leaving the list as it is. */
    method Get() returns (r: Result<T>)
      modifies this
      ensures Popped(old(stack)).Err? ==> r == Err(PopFromEmpty) && stack == old(stack)
      ensures Popped(old(stack)).Ok? ==> r == Ok(Popped(old(stack)).value.0) && stack == Popped(old(stack)).value.1
    {
      match Popped(stack)
      case Err(e) =>
        r := Err(e);
      case Ok((x, rest)) =>
        r := Ok(x);
        stack := rest;
    }
  }

  /** `Stack`: a list of its own. */
  class Stack<T> {
    var items: seq<T>

    /** `Stack(*elements)` holds exactly the elements, in their order. */
    constructor(elements: seq<T>)
      ensures items == elements
    {
      items := elements;
    }

    /** `Stack.add(element)`. */
    method Add(element: T)
      modifies this
      ensures items == Pushed(old(items), element)
    {
      items := Pushed(items, element);
    }

    /** `Stack.get()`: as the module-level `get`. */
    method Get() returns (r: Result<T>)
      modifies this
      ensures Popped(old(items)).Err? ==> r == Err(PopFromEmpty) && items == old(items)
      ensures Popped(old(items)).Ok? ==> r == Ok(Popped(old(items)).value.0) && items == Popped(old(items)).value.1
    {
      match Popped(items)
      case Err(e) =>
        r := Err(e);
      case Ok((x, rest)) =>
        r := Ok(x);
        items := rest;
    }
  }

  /** A `person` instance. */
  class Person<T> {
    var name: string
    var stack: Stack<T>

    constructor(name: string, stack: Stack<T>)
      ensures this.name == name && this.stack == stack
    {
      this.name := name;
      this.stack := stack;
    }
  }

  /** The class `person` itself. Its default for `stack` is evaluated once,
      when the class statement runs, so it is one Stack object kept by the
      class and handed to every person built without a stack. */
  class PersonClass<T> {
    const defaultStack: Stack<T>

    /** Running the class statement builds the default `Stack()`. */
    constructor()
      ensures fresh(defaultStack) && defaultStack.items == []
    {
      defaultStack := new Stack([]);
    }

    /** `person(name)` or `person(name, stack)`. */
    method New(name: string, stack: Option<Stack<T>>) returns (p: Person<T>)
      ensures fresh(p) && p.name == name
      ensures p.stack == if stack.Some? then stack.value else defaultStack
    {
      var s := if stack.Some? then stack.value else defaultStack;
      p := new Person(name, s);
    }

    /** A `person` whose stack defaults to a new empty Stack per call, as
        the `stack=None` idiom gives. */
    method NewWithOwnStack(name: string, stack: Option<Stack<T>>) returns (p: Person<T>)
      ensures fresh(p) && p.name == name
      ensures stack.Some? ==> p.stack == stack.value
      ensures stack.None? ==> fresh(p.stack) && p.stack.items == []
    {
      var s: Stack<T>;
      if stack.Some? {
        s := stack.value;
      } else {
        s := new Stack([]);
      }
      p := new Person(name, s);
    }
  }

  /** add(x) then get() on a Stack gives x back and restores the contents. */
  method LastInFirstOutScenario<T>(s: Stack<T>, x: T) returns (r: Result<T>)
    modifies s
    ensures r == Ok(x) && s.items == old(s.items)
  {
    s.Add(x);
    LastInFirstOut(old(s.items), x);
    r := s.Get();
  }

  /** Two persons built without a stack share one: what the first pushes,
      the second pops. */
  method SharedDefaultScenario() returns (r: Result<int>)
    ensures r == Ok(7)
  {
    var personClass := new PersonClass<int>();
    var alice := personClass.New("alice", None);
    var bob := personClass.New("bob", None);
    assert alice.stack == bob.stack;
    alice.stack.Add(7);
    r := bob.stack.Get();
  }

  /** With a stack per person, the second person's stack stays empty. */
  method OwnStackScenario() returns (r: Result<int>)
    ensures r == Err(PopFromEmpty)
  {
    var personClass := new PersonClass<int>();
    var alice := personClass.NewWithOwnStack("alice", None);
    var bob := personClass.NewWithOwnStack("bob", None);
    alice.stack.Add(7);
    r := bob.stack.Get();
  }
}
