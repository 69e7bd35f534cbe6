/** `addCopyButtons` (public/chat.js): every `<pre>` block of a rendered
    message gets one "Copy" button appended, unless it already holds one. */
module CopyButtons {

  /** What a `<pre>` block holds, as far as `addCopyButtons` looks at it:
      the button it appends (class `copy-btn`) and anything else. */
  datatype Child = Code(text: string) | CopyButton | Other

  /** `block.querySelector(".copy-btn")` finds something. The search in the
      source goes through every descendant of the block; a `CopyButton`
      child stands for any child whose subtree holds a `.copy-btn`
      element, and `Code` and `Other` for children whose subtree holds
      none. */
  predicate HasCopyButton(children: seq<Child>) {
    exists i :: 0 <= i < |children| && children[i] == CopyButton
  }

  /** The children of a block once `addCopyButtons` has visited it. */
  function Augmented(children: seq<Child>): (r: seq<Child>)
    ensures HasCopyButton(r)
    ensures HasCopyButton(children) ==> r == children
    ensures !HasCopyButton(children) ==> r == children + [CopyButton]
  {
    if HasCopyButton(children) then children
    else
      var r := children + [CopyButton];
      assert r[|children|] == CopyButton;
      r
  }

  function CountButtons(children: seq<Child>): nat
    decreases |children|
  {
    if children == [] then 0
    else CountButtons(children[..|children| - 1]) + (if children[|children| - 1] == CopyButton then 1 else 0)
  }

  /** A block holds a copy button exactly when it counts at least one. */
  lemma {:induction false} CountButtonsPositive(children: seq<Child>)
    ensures CountButtons(children) > 0 <==> HasCopyButton(children)
    decreases |children|
  {
    if children != [] {
      var init := children[..|children| - 1];
      CountButtonsPositive(init);
      if HasCopyButton(init) {
        var i :| 0 <= i < |init| && init[i] == CopyButton;
        assert children[i] == CopyButton;
      }
      if HasCopyButton(children) && children[|children| - 1] != CopyButton {
        var i :| 0 <= i < |children| && children[i] == CopyButton;
        assert init[i] == CopyButton;
      }
    }
  }

  /** Visiting a block twice is the same as visiting it once. */
  lemma AugmentedIdempotent(children: seq<Child>)
    ensures Augmented(Augmented(children)) == Augmented(children)
  {
  }

  /** The number of buttons after a visit: one when there was none,
      otherwise what it was. */
  lemma AugmentedCount(children: seq<Child>)
    ensures CountButtons(Augmented(children)) == if CountButtons(children) == 0 then 1 else CountButtons(children)
  {
    CountButtonsPositive(children);
    if !HasCopyButton(children) {
      var r := children + [CopyButton];
      assert r[..|r| - 1] == children;
    }
  }

  /** A block that had no button has exactly one after any number of
      visits from one upward. */
  lemma AugmentedTwiceOneButton(children: seq<Child>)
    requires !HasCopyButton(children)
    ensures CountButtons(Augmented(Augmented(children))) == 1
  {
    AugmentedIdempotent(children);
    CountButtonsPositive(children);
    AugmentedCount(children);
  }

  /** A `<pre>` element of the page. */
  class PreElement {
    var children: seq<Child>

    constructor (children: seq<Child>)
      ensures this.children == children
    {
      this.children := children;
    }

    /** `block.appendChild(button)` */
    method AppendCopyButton()
      modifies this
      ensures children == old(children) + [CopyButton]
    {
      children := children + [CopyButton];
    }
  }

  /** `blocks.forEach(...)` over `container.querySelectorAll("pre")`: each
      block is given a button unless it already holds one. A block listed
      twice is visited twice, which changes nothing the second time. */
  method AddCopyButtons(blocks: seq<PreElement>)
    modifies set b | b in blocks
    ensures forall b :: b in blocks ==> b.children == Augmented(old(b.children))
  {
    for i := 0 to |blocks|
      invariant forall b :: b in blocks[..i] ==> b.children == Augmented(old(b.children))
      invariant forall b :: b in blocks && b !in blocks[..i] ==> b.children == old(b.children)
    {
      var block := blocks[i];
      if block !in blocks[..i] {
        assert block.children == old(block.children);
      } else {
        AugmentedIdempotent(old(block.children));
      }
      if HasCopyButton(block.children) {
        assert blocks[..i + 1] == blocks[..i] + [block];
        continue;
      }
      block.AppendCopyButton();
      assert blocks[..i + 1] == blocks[..i] + [block];
    }
    assert blocks[..|blocks|] == blocks;
  }

  /** `renderMarkdown` runs `addCopyButtons` over the same container each
      time it is called; two runs leave a block that had no button with
      exactly one. */
  method AddCopyButtonsTwice(blocks: seq<PreElement>)
    modifies set b | b in blocks
    ensures forall b :: b in blocks ==> b.children == Augmented(old(b.children))
    ensures forall b :: b in blocks && !HasCopyButton(old(b.children)) ==> CountButtons(b.children) == 1
  {
    AddCopyButtons(blocks);
    AddCopyButtons(blocks);
    forall b | b in blocks
      ensures b.children == Augmented(old(b.children))
    {
      AugmentedIdempotent(old(b.children));
    }
    forall b | b in blocks && !HasCopyButton(old(b.children))
      ensures CountButtons(b.children) == 1
    {
      AugmentedCount(old(b.children));
      CountButtonsPositive(old(b.children));
    }
  }
}
