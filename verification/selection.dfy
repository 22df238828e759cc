/** Exclusive selection in a group of elements (the search tabs, the filter buttons):
    a click clears `active` on every element of the group, then sets it on the clicked one. */
module Selection {

  /** One element of a group: whatever it carries, and whether it has the `active` class. */
  datatype Element<T> = Element(data: T, active: bool)

  /** How many elements of the group are active. */
  function CountActive<T>(g: seq<Element<T>>): (n: nat)
    ensures n <= |g|
  {
    if g == [] then 0 else (if g[0].active then 1 else 0) + CountActive(g[1..])
  }

  /** Element `i` is active and no other element is. */
  predicate OnlyActive<T>(g: seq<Element<T>>, i: int) {
    0 <= i < |g| && forall j :: 0 <= j < |g| ==> (g[j].active <==> j == i)
  }

  /** The first pass of the click handler: every element loses `active`. */
  function ClearAll<T>(g: seq<Element<T>>): (r: seq<Element<T>>)
    ensures |r| == |g|
    ensures forall j :: 0 <= j < |r| ==> !r[j].active && r[j].data == g[j].data
  {
    seq(|g|, j requires 0 <= j < |g| => g[j].(active := false))
  }

  /** A click on element `i` of the group. */
  function Activate<T>(g: seq<Element<T>>, i: nat): (r: seq<Element<T>>)
    requires i < |g|
    ensures |r| == |g|
    ensures forall j :: 0 <= j < |r| ==> r[j].data == g[j].data
    ensures OnlyActive(r, i)
  {
    ClearAll(g)[i := g[i].(active := true)]
  }

  /** Exactly one element is active precisely when a single element is the only active one. */
  lemma {:induction false} ExactlyOneActive<T>(g: seq<Element<T>>)
    ensures CountActive(g) == 1 <==> exists i :: OnlyActive(g, i)
  {
    if g != [] {
      var rest := g[1..];
      ExactlyOneActive(rest);
      if CountActive(g) == 1 {
        if g[0].active {
          NoneActive(rest);
          assert OnlyActive(g, 0);
        } else {
          var i :| OnlyActive(rest, i);
          assert OnlyActive(g, i + 1);
        }
      }
      if exists i :: OnlyActive(g, i) {
        var i :| OnlyActive(g, i);
        if i == 0 {
          assert forall j :: 0 <= j < |rest| ==> !rest[j].active;
          NoneActive(rest);
        } else {
          assert OnlyActive(rest, i - 1);
        }
      }
    }
  }

  /** No element is active exactly when the count is zero. */
  lemma {:induction false} NoneActive<T>(g: seq<Element<T>>)
    ensures CountActive(g) == 0 <==> forall j :: 0 <= j < |g| ==> !g[j].active
  {
    if g != [] {
      NoneActive(g[1..]);
      assert forall j :: 1 <= j < |g| ==> g[j] == g[1..][j - 1];
    }
  }

  /** After any click exactly one element of the group is active, and it is the clicked one. */
  lemma ClickLeavesOneActive<T>(g: seq<Element<T>>, i: nat)
    requires i < |g|
    ensures CountActive(Activate(g, i)) == 1
    ensures Activate(g, i)[i].active
  {
    ExactlyOneActive(Activate(g, i));
  }

  /** Only the last click matters: earlier clicks leave no trace. */
  lemma LastClickWins<T>(g: seq<Element<T>>, i: nat, k: nat)
    requires i < |g| && k < |g|
    ensures Activate(Activate(g, k), i) == Activate(g, i)
  {
  }
}
