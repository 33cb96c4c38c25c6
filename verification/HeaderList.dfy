/**
 The doubly linked header lists of narnify's alloc.c.  Block headers and allocation headers
 are linked by the same code; a header is named by its address, 0 being NULL, and `links`
 holds the next and prev fields found at each address.
*/
module HeaderList {
  import opened Machine

  datatype Link = Link(next: nat, prev: nat)

  function Without(s: seq<nat>, i: nat): seq<nat>
    requires i < |s|
  {
    s[..i] + s[i + 1..]
  }

  lemma WithoutElements(s: seq<nat>, i: nat)
    requires i < |s| && Distinct(s)
    ensures Distinct(Without(s, i)) && s[i] !in Without(s, i)
    ensures forall x :: x in Without(s, i) <==> x in s && x != s[i]
  {
  }

  /** The header at position i, or NULL past either end. */
  function At(list: seq<nat>, i: int): nat {
    if 0 <= i < |list| then list[i] else 0
  }

  /** The header at position i has the neighbours of that position. */
  ghost predicate LinkedAt(list: seq<nat>, links: map<nat, Link>, i: nat)
    requires i < |list|
  {
    list[i] in links && links[list[i]] == Link(At(list, i + 1), At(list, i - 1))
  }

  ghost predicate Chained(list: seq<nat>, links: map<nat, Link>) {
    forall i: nat | i < |list| :: LinkedAt(list, links, i)
  }

  /** `links` with the header at the end of `list` pointing to a new one. */
  function LinkedToEnd(links: map<nat, Link>, tail: nat, header: nat): map<nat, Link>
    requires tail == 0 || tail in links
  {
    var one := if tail != 0 then links[tail := links[tail].(next := header)] else links;
    one[header := Link(0, tail)]
  }

  lemma ChainedAdd(list: seq<nat>, links: map<nat, Link>, header: nat)
    requires Chained(list, links) && Distinct(list) && 0 !in list && header !in list
    ensures var tail := At(list, |list| - 1);
      && (tail == 0 || tail in links)
      && Chained(list + [header], LinkedToEnd(links, tail, header))
  {
    var tail := At(list, |list| - 1);
    assert tail == 0 || LinkedAt(list, links, |list| - 1);
    var after := LinkedToEnd(links, tail, header);
    forall i: nat | i < |list + [header]| ensures LinkedAt(list + [header], after, i) {
      if i < |list| {
        assert LinkedAt(list, links, i);
      }
    }
  }

  /** `links` with the neighbours of a removed header pointing at each other, and its own fields cleared. */
  function LinkedPast(links: map<nat, Link>, header: nat): map<nat, Link>
    requires header in links
    requires var Link(next, prev) := links[header]; (prev == 0 || prev in links) && (next == 0 || next in links)
  {
    var Link(next, prev) := links[header];
    var one := if prev != 0 then links[prev := links[prev].(next := next)] else links;
    var two := if next != 0 then one[next := one[next].(prev := prev)] else one;
    two[header := Link(0, 0)]
  }

  lemma ChainedRemove(list: seq<nat>, links: map<nat, Link>, i: nat)
    requires i < |list| && Chained(list, links) && Distinct(list) && 0 !in list
    ensures list[i] in links
    ensures var Link(next, prev) := links[list[i]];
      && next == At(list, i + 1) && prev == At(list, i - 1)
      && (prev == 0 || prev in links) && (next == 0 || next in links)
      && Chained(Without(list, i), LinkedPast(links, list[i]))
  {
    assert LinkedAt(list, links, i);
    assert i > 0 ==> LinkedAt(list, links, i - 1);
    assert i + 1 < |list| ==> LinkedAt(list, links, i + 1);
    var after, rest := LinkedPast(links, list[i]), Without(list, i);
    forall k: nat | k < |rest| ensures LinkedAt(rest, after, k) {
      var j := if k < i then k else k + 1;
      assert LinkedAt(list, links, j);
    }
  }

  class HeaderList {
    var head: nat
    var tail: nat
    var links: map<nat, Link>
    ghost var list: seq<nat>

    ghost predicate Valid()
      reads this
    {
      && Distinct(list) && 0 !in list
      && head == At(list, 0) && tail == At(list, |list| - 1)
      && Chained(list, links)
    }

    constructor ()
      ensures Valid() && list == []
    {
      head, tail, links, list := 0, 0, map[], [];
    }

    /** AddBlockHeader and AddAllocHeader. */
    method Add(header: nat)
      requires Valid() && header != 0 && header !in list
      modifies this
      ensures Valid() && list == old(list) + [header]
    {
      ChainedAdd(list, links, header);
      if head == 0 {
        head := header;
      }
      var prev := tail;
      if tail != 0 {
        links := links[tail := links[tail].(next := header)];
      }
      tail := header;
      links := links[header := Link(0, prev)];
      list := list + [header];
    }

    /** RemoveBlockHeader and RemoveAllocHeader. */
    method Remove(header: nat, ghost i: nat)
      requires Valid() && i < |list| && list[i] == header
      modifies this
      ensures Valid() && list == Without(old(list), i)
    {
      ChainedRemove(list, links, i);
      WithoutElements(list, i);
      var Link(next, prev) := links[header];
      if head == header {
        head := next;
      }
      if tail == header {
        tail := prev;
      }
      if prev != 0 {
        links := links[prev := links[prev].(next := next)];
      }
      if next != 0 {
        links := links[next := links[next].(prev := prev)];
      }
      links := links[header := Link(0, 0)];
      list := Without(list, i);
    }
  }
}
