/** The partially persistent stack: every version is an immutable singly linked
    list, and `versions[t]` is the top of the stack at time `t`. */
module Stack {
  import opened Versions

  /** One version of the stack; nodes are never changed once built, so versions
      share their tails. */
  datatype List = Nil | Cons(data: string, next: List)

  /** The values of a version, top first. */
  function Items(l: List): seq<string> {
    match l
    case Nil => []
    case Cons(d, n) => [d] + Items(n)
  }

  function Reverse(s: seq<string>): (r: seq<string>)
    ensures |r| == |s|
    ensures forall i :: 0 <= i < |s| ==> r[i] == s[|s| - 1 - i]
  {
    if s == [] then [] else Reverse(s[1..]) + [s[0]]
  }

  class PersistentStack {
    var versions: array<List>
    var currentTime: nat

    /** Time `0` is the empty stack and every time up to `currentTime` has a slot. */
    ghost predicate Valid()
      reads this, versions
    {
      currentTime < versions.Length && versions[0] == Nil
    }

    /** The roots of all versions published so far, indexed by time. */
    ghost function History(): seq<List>
      reads this, versions
      requires Valid()
    {
      versions[..currentTime + 1]
    }

    ghost function Root(): List
      reads this, versions
      requires Valid()
    {
      versions[currentTime]
    }

    constructor ()
      ensures Valid() && fresh(versions)
      ensures currentTime == 0 && History() == [Nil]
    {
      versions := new List[MaxSize](_ => Nil);
      currentTime := 0;
    }

    /** Publishes one new node, on top of the current version, as the next version. */
    method Push(elem: string)
      requires Valid()
      modifies this, versions
      ensures Valid() && (versions == old(versions) || fresh(versions))
      ensures currentTime == old(currentTime) + 1
      ensures History() == old(History()) + [Cons(elem, old(Root()))]
    {
      if currentTime == versions.Length - 1 {
        versions := Doubled(versions, Nil);
      }
      var entry := Cons(elem, versions[currentTime]);
      currentTime := currentTime + 1;
      versions[currentTime] := entry;
    }

    /** Publishes the current top's `next` as the next version, copying nothing,
        and returns the value that was on top; an empty stack is an error that
        leaves every version and the time as they were. */
    method Pop() returns (r: Result<string>)
      requires Valid()
      modifies this, versions
      ensures Valid() && (versions == old(versions) || fresh(versions))
      ensures old(Root()) == Nil ==>
        r == Failure(EmptyStack) && currentTime == old(currentTime) &&
        versions == old(versions) && History() == old(History())
      ensures old(Root()).Cons? ==>
        r == Success(old(Root()).data) && currentTime == old(currentTime) + 1 &&
        History() == old(History()) + [old(Root()).next]
      ensures r.Success? ==> |Items(Root())| == |Items(old(Root()))| - 1
    {
      if versions[currentTime] == Nil {
        return Failure(EmptyStack);
      }
      if currentTime == versions.Length - 1 {
        versions := Doubled(versions, Nil);
      }
      var popped := versions[currentTime];
      currentTime := currentTime + 1;
      versions[currentTime] := versions[currentTime - 1].next;
      r := Success(popped.data);
    }

    /** The number of successful mutations so far: every one of them
        published one version after the initial empty one. */
    function CurrentTime(): (t: nat)
      reads this, versions
      requires Valid()
      ensures |History()| == t + 1
    {
      currentTime
    }

    /** The number of values in the version at `time`, counted along the list. */
    method Size(time: nat) returns (n: nat)
      requires Valid() && time <= currentTime
      ensures n == |Items(versions[time])|
    {
      var stack := versions[time];
      n := 0;
      while stack != Nil
        invariant n + |Items(stack)| == |Items(versions[time])|
        decreases stack
      {
        stack := stack.next;
        n := n + 1;
      }
    }

    method SizeNow() returns (n: nat)
      requires Valid()
      ensures n == |Items(Root())|
    {
      n := Size(currentTime);
    }

    /** All values of the version at `time`: the top first, or the top last when
        `reversed` holds. */
    method GetAllElements(time: nat, reversed: bool) returns (elements: array<string>)
      requires Valid() && time <= currentTime
      ensures fresh(elements)
      ensures elements[..] == if reversed then Reverse(Items(versions[time])) else Items(versions[time])
    {
      ghost var s := Items(versions[time]);
      var arraySize := Size(time);
      elements := new string[arraySize];
      var current := versions[time];
      var i: int := if reversed then arraySize as int - 1 else 0;
      ghost var k := 0;
      while current != Nil
        invariant 0 <= k <= arraySize
        invariant Items(current) == s[k..]
        invariant i == if reversed then arraySize - 1 - k else k
        invariant !reversed ==> forall j :: 0 <= j < k ==> elements[j] == s[j]
        invariant reversed ==> forall j :: 0 <= j < k ==> elements[arraySize - 1 - j] == s[j]
        decreases current
      {
        elements[i] := current.data;
        i := if reversed then i - 1 else i + 1;
        current := current.next;
        k := k + 1;
      }
      assert k == arraySize;
    }
  }

  /** A pop immediately after `push(x)` returns `x` and publishes the very
      version that was current before the push. */
  method PushThenPop(s: PersistentStack, x: string) returns (r: Result<string>)
    requires s.Valid()
    modifies s, s.versions
    ensures s.Valid()
    ensures r == Success(x)
    ensures s.currentTime == old(s.currentTime) + 2
    ensures s.Root() == old(s.Root())
    ensures s.History()[..old(s.currentTime) + 1] == old(s.History())
  {
    s.Push(x);
    r := s.Pop();
  }
}
