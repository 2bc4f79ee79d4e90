/** Where an anchored control goes when its parent window is resized. */
module AnchorLayout {
  import opened Bytes

  /** C's integer division, which truncates towards zero. */
  function Quotient(a: int, b: int): int
    requires b != 0
  {
    var n, d := if b > 0 then a else -a, if b > 0 then b else -b;
    if n >= 0 then n / d else -(-n / d)
  }

  datatype Anchor = Anchor(cx: int, cy: int)

  datatype Size = Size(cx: int, cy: int)

  datatype Rect = Rect(left: int, top: int, right: int, bottom: int) {
    function Width(): int { right - left }
    function Height(): int { bottom - top }
    function Offset(dx: int, dy: int): Rect {
      Rect(left + dx, top + dy, right + dx, bottom + dy)
    }
  }

  datatype LayoutInfo = LayoutInfo(hWnd: nat, anchorTopLeft: Anchor, marginTopLeft: Size,
                                   anchorBottomRight: Anchor, marginBottomRight: Size)

  /** How far along the parent an anchor is. */
  function Along(parent: int, percent: int): int {
    Quotient(parent * percent, 100)
  }

  /** AddAnchor: the margins between the anchor points and the child, as they are now. */
  function Anchored(hWnd: nat, parent: Rect, child: Rect, tl: Anchor, br: Anchor): LayoutInfo {
    var c := child.Offset(-parent.left, -parent.top);
    LayoutInfo(hWnd,
               tl, Size(c.left - Along(parent.Width(), tl.cx), c.top - Along(parent.Height(), tl.cy)),
               br, Size(c.right - Along(parent.Width(), br.cx), c.bottom - Along(parent.Height(), br.cy)))
  }

  /** CalcNewChildPosition. */
  function NewPosition(l: LayoutInfo, parent: Rect): Rect {
    Rect(l.marginTopLeft.cx + Along(parent.Width(), l.anchorTopLeft.cx),
         l.marginTopLeft.cy + Along(parent.Height(), l.anchorTopLeft.cy),
         l.marginBottomRight.cx + Along(parent.Width(), l.anchorBottomRight.cx),
         l.marginBottomRight.cy + Along(parent.Height(), l.anchorBottomRight.cy)).Offset(parent.left, parent.top)
  }

  /** The remainder has the sign of the dividend, and is smaller than the divisor. */
  lemma QuotientTruncates(a: int, b: int)
    requires b != 0
    ensures var rest, size := a - Quotient(a, b) * b, if b < 0 then -b else b;
            -size < rest < size && (a >= 0 ==> rest >= 0) && (a <= 0 ==> rest <= 0)
  {
    var n, d := if a < 0 then -a else a, if b < 0 then -b else b;
    var q: int := n / d;
    Rest(n, d);
    QuotientSigns(n, d);
    NegatedProducts(q, d);
    hide Quotient;
    assert Quotient(a, b) == if (a < 0) == (b < 0) then q else -q;
    assert Quotient(a, b) * b == if a < 0 then -(q * d) else q * d;
  }

  lemma Rest(n: nat, d: nat)
    requires d > 0
    ensures 0 <= n - (n / d) * d < d
  {
    assert n == d * (n / d) + n % d;
  }

  lemma QuotientSigns(n: nat, d: nat)
    requires d > 0
    ensures Quotient(n, d) == n / d && Quotient(0 - n, 0 - d) == n / d
    ensures Quotient(0 - n, d) == -(n / d) && Quotient(n, 0 - d) == -(n / d)
  {
    assert n == 0 ==> n / d == 0;
  }

  lemma NegatedProducts(q: int, d: int)
    ensures (-q) * d == -(q * d) && q * (-d) == -(q * d) && (-q) * (-d) == q * d
  {
  }

  /** A point of the parent, in per cent of its width and height from its top left corner. */
  function PointOf(parent: Rect, a: Anchor): (int, int) {
    (parent.left + Quotient((parent.right - parent.left) * a.cx, 100),
     parent.top + Quotient((parent.bottom - parent.top) * a.cy, 100))
  }

  /** Wherever the parent goes, each edge of the child stays as far from its anchor point as it was. */
  lemma EdgesKeepTheirDistance(hWnd: nat, parent: Rect, child: Rect, tl: Anchor, br: Anchor, parent': Rect)
    ensures var child' := NewPosition(Anchored(hWnd, parent, child, tl, br), parent');
            && child'.left - PointOf(parent', tl).0 == child.left - PointOf(parent, tl).0
            && child'.top - PointOf(parent', tl).1 == child.top - PointOf(parent, tl).1
            && child'.right - PointOf(parent', br).0 == child.right - PointOf(parent, br).0
            && child'.bottom - PointOf(parent', br).1 == child.bottom - PointOf(parent, br).1
  {
    hide Quotient;
  }

  /** A parent of the size it had puts the child exactly where it was, whatever happened between. */
  lemma SameSizeSamePlace(hWnd: nat, parent: Rect, child: Rect, tl: Anchor, br: Anchor, parent': Rect)
    requires parent'.Width() == parent.Width() && parent'.Height() == parent.Height()
    ensures NewPosition(Anchored(hWnd, parent, child, tl, br), parent')
         == child.Offset(parent'.left - parent.left, parent'.top - parent.top)
  {
  }

  // The way back: from the size of a child to that of its parent.

  /** GetAnchorMargins, before the child: along one axis. */
  function MarginBefore(size: int, tl: int, marginTl: int, br: int, marginBr: int): int
    requires tl != br
  {
    Quotient((size + marginTl - marginBr) * tl, br - tl) + marginTl
  }

  /** And after it. */
  function MarginAfter(size: int, tl: int, marginTl: int, br: int, marginBr: int): int
    requires tl != br
  {
    Quotient((size + marginTl - marginBr) * (100 - br), br - tl) - marginBr
  }

  /** The size of the child in a parent that is as large as the child and its margins. */
  function SizeBack(size: int, tl: int, marginTl: int, br: int, marginBr: int): int
    requires tl != br
  {
    var parent := MarginBefore(size, tl, marginTl, br, marginBr) + size + MarginAfter(size, tl, marginTl, br, marginBr);
    (marginBr + Along(parent, br)) - (marginTl + Along(parent, tl))
  }

  function Remainder(a: nat, b: nat): nat
    requires b > 0
  {
    a % b
  }

  lemma ProductIsNat(a: nat, b: nat)
    ensures a * b >= 0
  {
  }

  ghost predicate Divides(a: int, b: int, q: int, r: int) {
    a == b * q + r && 0 <= r < b
  }

  lemma Division(a: nat, b: nat) returns (q: nat, r: nat)
    requires b > 0
    ensures q == Quotient(a, b) && r == Remainder(a, b) && Divides(a, b, q, r)
  {
    q, r := a / b, a % b;
  }

  /** What rounding the parent's size down costs at one anchor, scaled up by 100 times the percentage. */
  function Slack(tlRest: nat, brRest: nat, anchor: int): int {
    tlRest * (100 - anchor) - brRest * anchor
  }

  lemma SlackBounds(r1: nat, r2: nat, anchor: nat, pct: nat)
    requires r1 < pct && r2 < pct && anchor <= 100
    ensures -100 * pct < Slack(r1, r2, anchor) < 100 * pct
  {
    assert 0 <= r1 * (100 - anchor) <= (pct - 1) * (100 - anchor);
    assert 0 <= r2 * anchor <= (pct - 1) * anchor;
  }

  lemma TimesKeepsOrder(f: nat, a: int, b: int)
    requires a <= b
    ensures f * a <= f * b
  {
  }

  /** A division whose dividend is known up to a small slack. */
  lemma QuotientNear(pct: nat, q: int, e: nat, base: int, slack: int)
    requires pct > 0 && e < 100 && -100 * pct < slack < 100 * pct
    requires pct * (100 * q + e) == 100 * pct * base + slack
    ensures q == if slack >= 0 then base else base - 1
  {
    var k := q - base;
    assert pct * (100 * k + e) == slack;
    if k >= 1 {
      TimesKeepsOrder(pct, 100, 100 * k + e);
    } else if k <= -2 {
      TimesKeepsOrder(pct, 100 * k + e, -100);
    } else if k == -1 {
      TimesKeepsOrder(pct, e - 100, -1);
    }
  }

  /** A parent of W pixels, scaled by the percentage that the child takes up. */
  lemma ParentScaled(s: nat, tl: nat, br: nat, a: nat, r1: nat, c: nat, r2: nat)
    requires tl < br <= 100
    requires s * tl == (br - tl) * a + r1 && s * (100 - br) == (br - tl) * c + r2
    ensures var pct := br - tl;
            var w := s + a + c;
            && pct * (w * tl) == 100 * pct * a + Slack(r1, r2, tl)
            && pct * (w * br) == 100 * pct * (s + a) + Slack(r1, r2, br)
  {
    var pct := br - tl;
    var w := s + a + c;
    var r := r1 + r2;
    Sum3(s, pct, tl, 100 - br);
    Sum3(pct, s, a, c);
    assert pct * w == 100 * s - r;
    ScaledBy(pct, w, s, r, tl);
    ScaledBy(pct, w, s, r, br);
    Sum3(s, pct, tl, 0);
    SlackIs(r1, r2, tl);
    SlackIs(r1, r2, br);
    Times100(pct, s, a);
  }

  lemma Sum3(f: int, x: int, y: int, z: int)
    ensures f * (x + y + z) == f * x + f * y + f * z
  {
  }

  lemma ScaledBy(pct: int, w: int, s: int, r: int, anchor: int)
    requires pct * w == 100 * s - r
    ensures pct * (w * anchor) == 100 * (s * anchor) - r * anchor
  {
    calc {
      pct * (w * anchor);
      (pct * w) * anchor;
      (100 * s - r) * anchor;
    }
  }

  lemma SlackIs(r1: nat, r2: nat, anchor: int)
    ensures Slack(r1, r2, anchor) == 100 * r1 - (r1 + r2) * anchor
  {
  }

  lemma Times100(pct: int, s: int, a: int)
    ensures 100 * pct * a == 100 * (pct * a)
    ensures 100 * pct * (s + a) == 100 * (s * pct) + 100 * (pct * a)
  {
  }

  /** What is left of the size after the four divisions. */
  lemma RoundedSize(s: nat, tl: nat, br: nat, a: nat, r1: nat, c: nat, r2: nat, q1: nat, e1: nat, q2: nat, e2: nat)
    requires tl < br <= 100
    requires Divides(s * tl, br - tl, a, r1) && Divides(s * (100 - br), br - tl, c, r2)
    requires Divides((s + a + c) * br, 100, q1, e1) && Divides((s + a + c) * tl, 100, q2, e2)
    ensures q1 - q2 == if Slack(r1, r2, br) < 0 <= Slack(r1, r2, tl) then s - 1 else s
  {
    var pct := br - tl;
    hide Slack;
    ParentScaled(s, tl, br, a, r1, c, r2);
    SlackBounds(r1, r2, tl, pct);
    SlackBounds(r1, r2, br, pct);
    SlackFalls(r1, r2, tl, br);
    QuotientNear(pct, q1, e1, s + a, Slack(r1, r2, br));
    QuotientNear(pct, q2, e2, a, Slack(r1, r2, tl));
  }

  /** Does the rounding make the right anchor fall short, and not the left one? */
  ghost predicate LosesPixel(s: nat, tl: nat, br: nat)
    requires tl < br <= 100
  {
    ProductIsNat(s, tl);
    ProductIsNat(s, 100 - br);
    var r1, r2 := Remainder(s * tl, br - tl), Remainder(s * (100 - br), br - tl);
    Slack(r1, r2, br) < 0 <= Slack(r1, r2, tl)
  }

  /** The share of the parent between the anchors, if the parent is as large as the share s asks for. */
  lemma ShareComesBack(s: nat, tl: nat, br: nat)
    requires tl < br <= 100
    ensures var w := s + Quotient(s * tl, br - tl) + Quotient(s * (100 - br), br - tl);
            Along(w, br) - Along(w, tl) == if LosesPixel(s, tl, br) then s - 1 else s
  {
    hide Slack, Quotient, Divides, Remainder;
    ProductIsNat(s, tl);
    ProductIsNat(s, 100 - br);
    var a, r1 := Division(s * tl, br - tl);
    var c, r2 := Division(s * (100 - br), br - tl);
    var w: nat := s + a + c;
    ProductIsNat(w, tl);
    ProductIsNat(w, br);
    var q1, e1 := Division(w * br, 100);
    var q2, e2 := Division(w * tl, 100);
    RoundedSize(s, tl, br, a, r1, c, r2, q1, e1, q2, e2);
  }

  /** The child comes back in the size it was asked for, or one pixel smaller. */
  lemma SizeComesBack(size: int, tl: int, marginTl: int, br: int, marginBr: int)
    requires 0 <= tl < br <= 100 && size + marginTl - marginBr >= 0
    ensures SizeBack(size, tl, marginTl, br, marginBr)
         == if LosesPixel(size + marginTl - marginBr, tl, br) then size - 1 else size
  {
    hide Quotient, LosesPixel, Along;
    ShareComesBack(size + marginTl - marginBr, tl, br);
  }

  lemma SlackFalls(r1: nat, r2: nat, tl: nat, br: nat)
    requires tl <= br <= 100
    ensures Slack(r1, r2, br) <= Slack(r1, r2, tl)
  {
  }

  /** Anchored to both sides of the parent, the child always gets its size back. */
  lemma SizeComesBackExactly(size: int, marginTl: int, marginBr: int)
    requires size + marginTl - marginBr >= 0
    ensures SizeBack(size, 0, marginTl, 100, marginBr) == size
  {
  }

  /** One pixel can indeed be lost. */
  lemma PixelLost()
    ensures SizeBack(1, 49, 0, 51, 0) == 0
  {
  }

  /** Anchors that are apart in both directions. */
  predicate Apart(l: LayoutInfo) {
    l.anchorTopLeft.cx != l.anchorBottomRight.cx && l.anchorTopLeft.cy != l.anchorBottomRight.cy
  }

  /** A control that grows with its parent in both directions. */
  predicate Stretches(l: LayoutInfo) {
    l.anchorTopLeft.cx < l.anchorBottomRight.cx && l.anchorTopLeft.cy < l.anchorBottomRight.cy
  }

  /** The four margins around a child of some size. */
  function MarginsFor(l: LayoutInfo, size: Size): Rect
    requires Apart(l)
  {
    var tl, br := l.anchorTopLeft, l.anchorBottomRight;
    Rect(MarginBefore(size.cx, tl.cx, l.marginTopLeft.cx, br.cx, l.marginBottomRight.cx),
         MarginBefore(size.cy, tl.cy, l.marginTopLeft.cy, br.cy, l.marginBottomRight.cy),
         MarginAfter(size.cx, tl.cx, l.marginTopLeft.cx, br.cx, l.marginBottomRight.cx),
         MarginAfter(size.cy, tl.cy, l.marginTopLeft.cy, br.cy, l.marginBottomRight.cy))
  }

  /** The same with the two sizes that the source computes first. */
  lemma MarginsBySize(l: LayoutInfo, child: Size, size: Size, percent: Size)
    requires Apart(l)
    requires size == Size(child.cx + l.marginTopLeft.cx - l.marginBottomRight.cx,
                          child.cy + l.marginTopLeft.cy - l.marginBottomRight.cy)
    requires percent == Size(l.anchorBottomRight.cx - l.anchorTopLeft.cx, l.anchorBottomRight.cy - l.anchorTopLeft.cy)
    ensures percent.cx != 0 && percent.cy != 0
    ensures MarginsFor(l, child)
         == Rect(Quotient(size.cx * l.anchorTopLeft.cx, percent.cx) + l.marginTopLeft.cx,
                 Quotient(size.cy * l.anchorTopLeft.cy, percent.cy) + l.marginTopLeft.cy,
                 Quotient(size.cx * (100 - l.anchorBottomRight.cx), percent.cx) - l.marginBottomRight.cx,
                 Quotient(size.cy * (100 - l.anchorBottomRight.cy), percent.cy) - l.marginBottomRight.cy)
  {
    hide Quotient;
  }

  /** In a parent as large as the child and its margins, the child gets its size, or a pixel less each way. */
  lemma MarginsSuffice(l: LayoutInfo, size: Size)
    requires Stretches(l) && 0 <= l.anchorTopLeft.cx && l.anchorBottomRight.cx <= 100
    requires 0 <= l.anchorTopLeft.cy && l.anchorBottomRight.cy <= 100
    requires size.cx + l.marginTopLeft.cx - l.marginBottomRight.cx >= 0
    requires size.cy + l.marginTopLeft.cy - l.marginBottomRight.cy >= 0
    ensures var m := MarginsFor(l, size);
            var child := NewPosition(l, Rect(0, 0, m.left + size.cx + m.right, m.top + size.cy + m.bottom));
            size.cx - 1 <= child.Width() <= size.cx && size.cy - 1 <= child.Height() <= size.cy
  {
    hide Quotient, Slack, MarginBefore, MarginAfter, Along;
    SizeComesBack(size.cx, l.anchorTopLeft.cx, l.marginTopLeft.cx, l.anchorBottomRight.cx, l.marginBottomRight.cx);
    SizeComesBack(size.cy, l.anchorTopLeft.cy, l.marginTopLeft.cy, l.anchorBottomRight.cy, l.marginBottomRight.cy);
  }

  // The list of anchored controls.

  class Layout {
    var parent: Rect
    /** Where the child windows are. */
    var children: map<nat, Rect>
    var list: seq<LayoutInfo>
    /** The position in the list of each window's entry. */
    var index: map<nat, nat>

    ghost predicate Valid()
      reads this
    {
      && (forall h :: h in index ==> index[h] < |list| && list[index[h]].hWnd == h)
      && (forall i :: 0 <= i < |list| ==> list[i].hWnd in index && index[list[i].hWnd] == i)
      && (forall h :: h in index ==> h in children)
    }

    /** Every anchored child is where its margins put it. */
    ghost predicate Arranged()
      requires Valid()
      reads this
    {
      forall h :: h in index ==> children[h] == NewPosition(list[index[h]], parent)
    }

    constructor (parent: Rect, children: map<nat, Rect>)
      ensures Valid() && Arranged()
      ensures this.parent == parent && this.children == children && list == [] && index == map[]
    {
      this.parent, this.children := parent, children;
      list, index := [], map[];
    }

    /** The child window must exist, and must not have been added before. */
    method AddAnchor(hWnd: nat, tl: Anchor, br: Anchor)
      requires Valid() && hWnd in children && hWnd !in index
      modifies this`list, this`index
      ensures Valid() && list == old(list) + [Anchored(hWnd, parent, children[hWnd], tl, br)]
      ensures index == old(index)[hWnd := |old(list)|]
      ensures old(Arranged()) ==> Arranged()
    {
      var rectChild := children[hWnd].Offset(-parent.left, -parent.top);
      var layout := LayoutInfo(hWnd,
                               tl, Size(rectChild.left - Quotient(parent.Width() * tl.cx, 100),
                                        rectChild.top - Quotient(parent.Height() * tl.cy, 100)),
                               br, Size(rectChild.right - Quotient(parent.Width() * br.cx, 100),
                                        rectChild.bottom - Quotient(parent.Height() * br.cy, 100)));
      SameSizeSamePlace(hWnd, parent, children[hWnd], tl, br, parent);
      index := index[hWnd := |list|];
      list := list + [layout];
    }

    /** ArrangeLayout: every anchored child goes to its new position, the others stay. */
    method ArrangeLayout()
      requires Valid()
      modifies this`children
      ensures Valid() && Arranged()
      ensures children.Keys == old(children.Keys)
      ensures forall h :: h in children && h !in index ==> children[h] == old(children)[h]
    {
      var moved: map<nat, Rect> := map[];
      var i := 0;
      while i < |list|
        invariant 0 <= i <= |list|
        invariant forall h :: h in moved ==> h in index && moved[h] == NewPosition(list[index[h]], parent)
        invariant forall j :: 0 <= j < i && list[j].hWnd !in moved ==>
                    children[list[j].hWnd] == NewPosition(list[j], parent)
      {
        var layout := list[i];
        var rectChild := children[layout.hWnd];
        var rectNew := NewPosition(layout, parent);
        var noMove := rectNew.left == rectChild.left && rectNew.top == rectChild.top;
        var noSize := rectNew.Width() == rectChild.Width() && rectNew.Height() == rectChild.Height();
        if !(noMove && noSize) {
          moved := moved[layout.hWnd := rectNew];
        }
        i := i + 1;
      }
      children := map h | h in children :: if h in moved then moved[h] else children[h];
    }

    /** The parent is resized, and the layout arranged. */
    method Resize(newParent: Rect)
      requires Valid()
      modifies this`parent, this`children
      ensures Valid() && Arranged() && parent == newParent
      ensures children.Keys == old(children.Keys)
      ensures forall h :: h in children && h !in index ==> children[h] == old(children)[h]
    {
      parent := newParent;
      ArrangeLayout();
    }

    /** However often the parent is resized: when it has its old size again, so has every child, in its old place. */
    method ResizeBack(sizes: seq<Rect>)
      requires Valid() && Arranged()
      modifies this`parent, this`children
      ensures Valid() && parent == old(parent) && children == old(children)
    {
      var start := parent;
      var i := 0;
      while i < |sizes|
        invariant 0 <= i <= |sizes| && Valid() && children.Keys == old(children.Keys)
        invariant forall h :: h in children && h !in index ==> children[h] == old(children)[h]
      {
        Resize(sizes[i]);
        i := i + 1;
      }
      Resize(start);
      assert forall h :: h in children ==> children[h] == old(children)[h];
    }

    /** GetAnchorMargins, for a control whose anchors are apart in both directions. */
    method GetAnchorMargins(hWnd: nat, sizeChild: Size) returns (margins: Option<Rect>)
      requires Valid()
      requires hWnd in index ==> Apart(list[index[hWnd]])
      ensures margins == if hWnd in index then Some(MarginsFor(list[index[hWnd]], sizeChild)) else None
    {
      if hWnd !in index {
        return None;
      }
      var layout := list[index[hWnd]];
      var size := Size(sizeChild.cx + layout.marginTopLeft.cx - layout.marginBottomRight.cx,
                       sizeChild.cy + layout.marginTopLeft.cy - layout.marginBottomRight.cy);
      var percent := Size(layout.anchorBottomRight.cx - layout.anchorTopLeft.cx,
                          layout.anchorBottomRight.cy - layout.anchorTopLeft.cy);
      MarginsBySize(layout, sizeChild, size, percent);
      hide *;
      return Some(Rect(Quotient(size.cx * layout.anchorTopLeft.cx, percent.cx) + layout.marginTopLeft.cx,
                       Quotient(size.cy * layout.anchorTopLeft.cy, percent.cy) + layout.marginTopLeft.cy,
                       Quotient(size.cx * (100 - layout.anchorBottomRight.cx), percent.cx) - layout.marginBottomRight.cx,
                       Quotient(size.cy * (100 - layout.anchorBottomRight.cy), percent.cy) - layout.marginBottomRight.cy));
    }
  }
}
