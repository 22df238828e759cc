/** The wishlist buttons: each click flips the button's `active` class, swaps its heart
    icon between outline (`far`) and filled (`fas`), and announces the change. */
module Wishlist {
  import opened Toasts

  const Filled: string := "fas"
  const Outline: string := "far"
  const AddedMessage: string := "Added to favorites!"
  const RemovedMessage: string := "Removed from favorites"

  /** A button: its `active` class and the classes of its icon. */
  datatype Button = Button(active: bool, icon: set<string>)

  /** A click's effect: the button afterwards and the toast it shows. */
  datatype Outcome = Outcome(button: Button, toast: Toast)

  /** The icon is filled exactly when the button is active, and outlined otherwise. */
  predicate IconAgrees(b: Button) {
    (Filled in b.icon <==> b.active) && (Outline in b.icon <==> !b.active)
  }

  /** A click on one button. */
  function Click(b: Button): (r: Outcome)
    ensures r.button.active == !b.active
    ensures IconAgrees(r.button)
    ensures r.button.icon - {Filled, Outline} == b.icon - {Filled, Outline}
    ensures r.toast.message == AddedMessage <==> r.button.active
    ensures r.toast.kind == Success <==> r.button.active
    ensures r.button.active ==> r.toast == Toast(AddedMessage, Success)
    ensures !r.button.active ==> r.toast == Toast(RemovedMessage, Info)
  {
    if !b.active then
      Outcome(Button(true, b.icon - {Outline} + {Filled}), Toast(AddedMessage, Success))
    else
      Outcome(Button(false, b.icon - {Filled} + {Outline}), Toast(RemovedMessage, Info))
  }

  /** Two clicks restore a button whose icon agreed with it. */
  lemma ClickTwiceRestores(b: Button)
    requires IconAgrees(b)
    ensures Click(Click(b).button).button == b
  {
  }

  /** The agreement is needed: an icon carrying both classes loses one for good. */
  lemma ClickTwiceNeedsAgreement()
    ensures var b := Button(false, {Filled, Outline}); Click(Click(b).button).button != b
  {
  }

  /** A click on button `i` of the page's buttons. */
  function ClickAt(bs: seq<Button>, i: nat): (r: (seq<Button>, Toast))
    requires i < |bs|
    ensures |r.0| == |bs|
    ensures r.0[i].active == !bs[i].active && IconAgrees(r.0[i])
    ensures forall j :: 0 <= j < |bs| && j != i ==> r.0[j] == bs[j]
    ensures r.1.message == AddedMessage <==> r.0[i].active
  {
    var o := Click(bs[i]);
    (bs[i := o.button], o.toast)
  }

  /** Buttons are independent: clicks on two different buttons commute. */
  lemma ClicksCommute(bs: seq<Button>, i: nat, k: nat)
    requires i < |bs| && k < |bs| && i != k
    ensures ClickAt(ClickAt(bs, i).0, k).0 == ClickAt(ClickAt(bs, k).0, i).0
  {
  }
}
