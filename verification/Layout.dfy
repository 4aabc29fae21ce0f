/** Screen layout: which peer's screen the cursor enters when it leaves the server's, and
    where. `i32` arithmetic wraps as in a release build. */
module Layout {
  import opened Protocol

  datatype Edge = LeftEdge | RightEdge | TopEdge | BottomEdge

  datatype Screen = Screen(width: u32, height: u32)

  datatype PeerScreen = PeerScreen(edge: Edge, offset: i32, screen: Screen)

  datatype Layout = Layout(serverScreen: Screen, peers: seq<PeerScreen>)

  /** The result of `check_edge`; `Panic` when `clamp` is given an empty range. */
  datatype EdgeCross =
    | Stay
    | Cross(peerIndex: nat, entryX: i32, entryY: i32)
    | Panic

  predicate IsHorizontal(e: Edge) { e.LeftEdge? || e.RightEdge? }

  /** `i32::clamp(v, 0, hi)`, which panics when `hi` is negative. */
  function ClampFromZero(v: i32, hi: i32): Option<i32> {
    if hi < 0 then None else Some(if v < 0 then 0 else if v > hi then hi else v)
  }

  /** Whether the cursor is past the edge a peer is attached to. */
  predicate Crossed(server: Screen, e: Edge, x: i32, y: i32) {
    match e
    case LeftEdge => x < 0
    case RightEdge => x >= WrapI32(server.width)
    case TopEdge => y < 0
    case BottomEdge => y >= WrapI32(server.height)
  }

  function EnterPeer(i: nat, peer: PeerScreen, x: i32, y: i32): EdgeCross {
    var lastX := WrapI32(WrapI32(peer.screen.width) - 1);
    var lastY := WrapI32(WrapI32(peer.screen.height) - 1);
    if IsHorizontal(peer.edge) then
      match ClampFromZero(WrapI32(y - peer.offset), lastY)
      case None => Panic
      case Some(localY) => Cross(i, if peer.edge.LeftEdge? then lastX else 0, localY)
    else
      match ClampFromZero(WrapI32(x - peer.offset), lastX)
      case None => Panic
      case Some(localX) => Cross(i, localX, if peer.edge.TopEdge? then lastY else 0)
  }

  function CheckFrom(l: Layout, i: nat, x: i32, y: i32): EdgeCross
    requires i <= |l.peers|
    decreases |l.peers| - i
  {
    if i == |l.peers| then Stay
    else if Crossed(l.serverScreen, l.peers[i].edge, x, y) then EnterPeer(i, l.peers[i], x, y)
    else CheckFrom(l, i + 1, x, y)
  }

  /** `Layout::check_edge` */
  function CheckEdge(l: Layout, x: i32, y: i32): EdgeCross { CheckFrom(l, 0, x, y) }

  // ---- Which peer -----------------------------------------------------------------------

  predicate IsFirstCrossed(l: Layout, i: nat, x: i32, y: i32) {
    && i < |l.peers| && Crossed(l.serverScreen, l.peers[i].edge, x, y)
    && forall j :: 0 <= j < i ==> !Crossed(l.serverScreen, l.peers[j].edge, x, y)
  }

  /** The peer's extent along the shared edge. */
  function Span(p: PeerScreen): u32 {
    if IsHorizontal(p.edge) then p.screen.height else p.screen.width
  }

  /** `check_edge` decides by the first peer in list order whose edge the cursor is past, and
      stays exactly when there is none. It panics exactly when that peer's extent along the
      edge is zero or more than 2^31. */
  lemma FirstCrossedWins(l: Layout, x: i32, y: i32)
    ensures match CheckEdge(l, x, y)
            case Stay => forall i :: 0 <= i < |l.peers| ==> !Crossed(l.serverScreen, l.peers[i].edge, x, y)
            case Cross(i, _, _) => IsFirstCrossed(l, i, x, y) && 1 <= Span(l.peers[i]) <= 0x8000_0000
            case Panic =>
              exists i: nat :: IsFirstCrossed(l, i, x, y) && (Span(l.peers[i]) == 0 || Span(l.peers[i]) > 0x8000_0000)
  {
    CheckFromFirst(l, 0, x, y);
  }

  lemma {:induction false} CheckFromFirst(l: Layout, from: nat, x: i32, y: i32)
    requires from <= |l.peers|
    requires forall j :: 0 <= j < from ==> !Crossed(l.serverScreen, l.peers[j].edge, x, y)
    ensures match CheckFrom(l, from, x, y)
            case Stay => forall i :: 0 <= i < |l.peers| ==> !Crossed(l.serverScreen, l.peers[i].edge, x, y)
            case Cross(i, _, _) => IsFirstCrossed(l, i, x, y) && 1 <= Span(l.peers[i]) <= 0x8000_0000
            case Panic =>
              exists i: nat :: IsFirstCrossed(l, i, x, y) && (Span(l.peers[i]) == 0 || Span(l.peers[i]) > 0x8000_0000)
    decreases |l.peers| - from
  {
    hide Crossed, EnterPeer, Span;
    if from < |l.peers| {
      if Crossed(l.serverScreen, l.peers[from].edge, x, y) {
        assert IsFirstCrossed(l, from, x, y);
        EnterPanics(from, l.peers[from], x, y);
      } else {
        CheckFromFirst(l, from + 1, x, y);
      }
    }
  }

  lemma EnterPanics(i: nat, p: PeerScreen, x: i32, y: i32)
    ensures !EnterPeer(i, p, x, y).Stay?
    ensures EnterPeer(i, p, x, y).Panic? <==> Span(p) == 0 || Span(p) > 0x8000_0000
    ensures EnterPeer(i, p, x, y).Cross? ==> EnterPeer(i, p, x, y).peerIndex == i
  {
  }

  predicate IsUsual(s: Screen) { 1 <= s.width < 0x8000_0000 && 1 <= s.height < 0x8000_0000 }

  /** A pixel of the server's screen. */
  predicate IsPixel(s: Screen, px: int, py: int) { 0 <= px < s.width && 0 <= py < s.height }

  /** Beyond an edge: on its outer side of every pixel of the screen. */
  ghost predicate IsBeyond(s: Screen, e: Edge, x: int, y: int) {
    forall px: int, py: int :: IsPixel(s, px, py) ==>
      match e
      case LeftEdge => x < px
      case RightEdge => x > px
      case TopEdge => y < py
      case BottomEdge => y > py
  }

  /** An edge is crossed exactly when the cursor is beyond all of the screen on that side. */
  lemma {:induction false} CrossedIsBeyond(s: Screen, e: Edge, x: i32, y: i32)
    requires IsUsual(s)
    ensures Crossed(s, e, x, y) <==> IsBeyond(s, e, x, y)
  {
    assert IsPixel(s, 0, 0) && IsPixel(s, s.width - 1, s.height - 1);
  }

  predicate HasPeerOn(l: Layout, e: Edge) { exists i :: 0 <= i < |l.peers| && l.peers[i].edge == e }

  /** A server with a peer on every edge keeps the cursor exactly on its own pixels. */
  lemma {:induction false} StayIsOnScreen(l: Layout, x: i32, y: i32)
    requires IsUsual(l.serverScreen)
    requires forall e: Edge :: HasPeerOn(l, e)
    ensures CheckEdge(l, x, y).Stay? <==> IsPixel(l.serverScreen, x, y)
  {
    hide CheckEdge, Span;
    FirstCrossedWins(l, x, y);
    assert HasPeerOn(l, LeftEdge) && HasPeerOn(l, RightEdge) && HasPeerOn(l, TopEdge) && HasPeerOn(l, BottomEdge);
    var left :| 0 <= left < |l.peers| && l.peers[left].edge == LeftEdge;
    var right :| 0 <= right < |l.peers| && l.peers[right].edge == RightEdge;
    var top :| 0 <= top < |l.peers| && l.peers[top].edge == TopEdge;
    var bottom :| 0 <= bottom < |l.peers| && l.peers[bottom].edge == BottomEdge;
  }

  /** A second peer on an edge is never entered, whatever its offset. */
  lemma SecondPeerOnAnEdgeIsUnreachable(l: Layout, i: nat, j: nat, x: i32, y: i32)
    requires i < j < |l.peers| && l.peers[i].edge == l.peers[j].edge
    ensures CheckEdge(l, x, y).Cross? ==> CheckEdge(l, x, y).peerIndex != j
  {
    FirstCrossedWins(l, x, y);
  }

  predicate Enters(l: Layout, j: nat, x: i32, y: i32) {
    CheckEdge(l, x, y).Cross? && CheckEdge(l, x, y).peerIndex == j
  }

  /** A cursor that is past one edge of the server's screen and no other. */
  function PastOnly(s: Screen, e: Edge): (p: (i32, i32))
    requires IsUsual(s)
  {
    var before: i32, origin: i32, w: i32, h: i32 := -1, 0, s.width, s.height;
    match e
    case LeftEdge => (before, origin)
    case RightEdge => (w, origin)
    case TopEdge => (origin, before)
    case BottomEdge => (origin, h)
  }

  lemma EnteredMeansFirst(l: Layout, j: nat, x: i32, y: i32)
    requires j < |l.peers| && Enters(l, j, x, y)
    ensures forall i :: 0 <= i < j ==> l.peers[i].edge != l.peers[j].edge
    ensures 1 <= Span(l.peers[j]) <= 0x8000_0000
  {
    hide CheckEdge, Span;
    FirstCrossedWins(l, x, y);
  }

  lemma FirstIsEntered(l: Layout, j: nat)
    requires j < |l.peers| && IsUsual(l.serverScreen)
    requires forall i :: 0 <= i < j ==> l.peers[i].edge != l.peers[j].edge
    requires 1 <= Span(l.peers[j]) <= 0x8000_0000
    ensures var p := PastOnly(l.serverScreen, l.peers[j].edge); Enters(l, j, p.0, p.1)
  {
    hide CheckEdge, Span;
    var p := PastOnly(l.serverScreen, l.peers[j].edge);
    FirstCrossedWins(l, p.0, p.1);
    assert IsFirstCrossed(l, j, p.0, p.1);
  }

  /** Some cursor enters a peer's screen if and only if no earlier peer is on the same edge and
      the peer's extent along that edge is one `clamp` accepts. */
  lemma {:induction false} EnteredIfFirstOnItsEdge(l: Layout, j: nat)
    requires j < |l.peers| && IsUsual(l.serverScreen)
    ensures (exists x: i32, y: i32 :: Enters(l, j, x, y))
            <==> (forall i :: 0 <= i < j ==> l.peers[i].edge != l.peers[j].edge)
                 && 1 <= Span(l.peers[j]) <= 0x8000_0000
  {
    hide Enters, Span, PastOnly;
    forall x: i32, y: i32 | Enters(l, j, x, y)
      ensures forall i :: 0 <= i < j ==> l.peers[i].edge != l.peers[j].edge
      ensures 1 <= Span(l.peers[j]) <= 0x8000_0000
    {
      EnteredMeansFirst(l, j, x, y);
    }
    if (forall i :: 0 <= i < j ==> l.peers[i].edge != l.peers[j].edge) && 1 <= Span(l.peers[j]) <= 0x8000_0000 {
      FirstIsEntered(l, j);
    }
  }

  // ---- Where ------------------------------------------------------------------------------

  /** Whatever the sizes, the coordinate across the edge is the last or first of the peer's, up
      to the wrap into `i32`, and the one along it is not negative. */
  lemma EntryAcross(l: Layout, x: i32, y: i32)
    requires CheckEdge(l, x, y).Cross?
    ensures var c := CheckEdge(l, x, y);
            var p := l.peers[CheckedIndex(l, x, y)];
            match p.edge
            case LeftEdge => (c.entryX - (p.screen.width - 1)) % 0x1_0000_0000 == 0 && 0 <= c.entryY < p.screen.height
            case RightEdge => c.entryX == 0 && 0 <= c.entryY < p.screen.height
            case TopEdge => (c.entryY - (p.screen.height - 1)) % 0x1_0000_0000 == 0 && 0 <= c.entryX < p.screen.width
            case BottomEdge => c.entryY == 0 && 0 <= c.entryX < p.screen.width
  {
    hide CheckEdge;
    CheckedByPeer(l, x, y);
    FirstCrossedWins(l, x, y);
    var p := l.peers[CheckedIndex(l, x, y)];
    LastOf(p.screen.width);
    LastOf(p.screen.height);
  }

  lemma LastOf(size: u32)
    ensures (WrapI32(WrapI32(size) - 1) - (size - 1)) % 0x1_0000_0000 == 0
    ensures 1 <= size <= 0x8000_0000 ==> WrapI32(WrapI32(size) - 1) == size - 1
  {
    var w: int := WrapI32(size);
    assert w == size || w == size - 0x1_0000_0000;
    var r: int := WrapI32(w - 1);
    assert r == w - 1 || r == w - 1 + 0x1_0000_0000;
  }

  /** How far point `q` of the peer's extent is from the cursor, along the shared edge. */
  function Distance(p: PeerScreen, q: int, cursor: int): nat {
    var d := q + p.offset - cursor;
    if d < 0 then -d else d
  }

  /** The cursor's coordinate along the shared edge. */
  function Along(e: Edge, x: i32, y: i32): i32 { if IsHorizontal(e) then y else x }

  /** The entry point is on the peer's side that touches the server. */
  predicate OnEntryLine(p: PeerScreen, ex: i32, ey: i32) {
    && 0 <= ex < p.screen.width && 0 <= ey < p.screen.height
    && match p.edge
       case LeftEdge => ex == p.screen.width - 1
       case RightEdge => ex == 0
       case TopEdge => ey == p.screen.height - 1
       case BottomEdge => ey == 0
  }

  /** No other point of the peer's extent is nearer to the cursor along the edge. */
  predicate IsNearest(p: PeerScreen, entry: int, cursor: int) {
    forall q: int :: 0 <= q < Span(p) ==> Distance(p, entry, cursor) <= Distance(p, q, cursor)
  }

  /** The cursor enters on the peer's touching side, at the point nearest to where it left
      the server: exactly when the distance to the offset fits in `i32`, or there is only
      one point to choose from. */
  lemma EntryIsNearest(l: Layout, x: i32, y: i32)
    requires var c := CheckEdge(l, x, y); c.Cross? && IsUsual(l.peers[CheckedIndex(l, x, y)].screen)
    ensures var c := CheckEdge(l, x, y);
            var p := l.peers[CheckedIndex(l, x, y)];
            var cursor := Along(p.edge, x, y);
            && OnEntryLine(p, c.entryX, c.entryY)
            && (IsNearest(p, Along(p.edge, c.entryX, c.entryY), cursor)
                <==> -0x8000_0000 <= cursor - p.offset < 0x8000_0000 || Span(p) == 1)
  {
    hide CheckEdge, IsNearest, Distance;
    var i := CheckedIndex(l, x, y);
    var p := l.peers[i];
    CheckedByPeer(l, x, y);
    EntersOnLine(i, p, x, y);
    var c := EnterPeer(i, p, x, y);
    NearestByClamp(p, Along(p.edge, c.entryX, c.entryY), Along(p.edge, x, y));
  }

  lemma CheckedByPeer(l: Layout, x: i32, y: i32)
    requires CheckEdge(l, x, y).Cross?
    ensures CheckEdge(l, x, y) == EnterPeer(CheckedIndex(l, x, y), l.peers[CheckedIndex(l, x, y)], x, y)
  {
    hide EnterPeer;
    CheckedPeer(l, 0, x, y);
  }

  lemma EntersOnLine(i: nat, p: PeerScreen, x: i32, y: i32)
    requires IsUsual(p.screen)
    ensures var c := EnterPeer(i, p, x, y);
            && c.Cross? && OnEntryLine(p, c.entryX, c.entryY)
            && ClampFromZero(WrapI32(Along(p.edge, x, y) - p.offset), Span(p) - 1)
               == Some(Along(p.edge, c.entryX, c.entryY))
  {
  }

  function CheckedIndex(l: Layout, x: i32, y: i32): (i: nat)
    requires CheckEdge(l, x, y).Cross?
    ensures i < |l.peers|
  {
    FirstCrossedWins(l, x, y);
    CheckEdge(l, x, y).peerIndex
  }

  lemma {:induction false} CheckedPeer(l: Layout, from: nat, x: i32, y: i32)
    requires from <= |l.peers| && CheckFrom(l, from, x, y).Cross?
    ensures var c := CheckFrom(l, from, x, y);
            c.peerIndex < |l.peers| && c == EnterPeer(c.peerIndex, l.peers[c.peerIndex], x, y)
    decreases |l.peers| - from
  {
    if !Crossed(l.serverScreen, l.peers[from].edge, x, y) {
      CheckedPeer(l, from + 1, x, y);
    }
  }

  lemma NearestByClamp(p: PeerScreen, entry: int, cursor: i32)
    requires IsUsual(p.screen) && ClampFromZero(WrapI32(cursor - p.offset), Span(p) - 1) == Some(entry)
    ensures IsNearest(p, entry, cursor)
            <==> -0x8000_0000 <= cursor - p.offset < 0x8000_0000 || Span(p) == 1
  {
    var d: int := cursor - p.offset;
    assert WrapI32(d) == d || WrapI32(d) == d + 0x1_0000_0000 || WrapI32(d) == d - 0x1_0000_0000;
    if d >= 0x8000_0000 && Span(p) > 1 {
      assert WrapI32(d) < 0 && entry == 0;
      assert Distance(p, 1, cursor) < Distance(p, entry, cursor);
    } else if d < -0x8000_0000 && Span(p) > 1 {
      assert WrapI32(d) > 0 && entry > 0;
      assert Distance(p, 0, cursor) < Distance(p, entry, cursor);
    }
  }

  // ---- Against the preview ------------------------------------------------------------------

  // The configuration window draws every screen at this scale.
  const SCALE: real := 0.15

  datatype Pos = Pos(px: real, py: real)

  /** Top left corner of the server's rectangle, which is drawn around `center`. */
  function ServerCorner(s: Screen, center: Pos): Pos {
    Pos(center.px - s.width as real * SCALE / 2.0, center.py - s.height as real * SCALE / 2.0)
  }

  /** Center of a peer's rectangle in the preview. */
  function PeerCenter(s: Screen, p: PeerScreen, center: Pos): Pos {
    var left, top := ServerCorner(s, center).px, ServerCorner(s, center).py;
    var right, bottom := left + s.width as real * SCALE, top + s.height as real * SCALE;
    var w, h := p.screen.width as real * SCALE, p.screen.height as real * SCALE;
    var offset := p.offset as real * SCALE;
    match p.edge
    case RightEdge => Pos(right + w / 2.0, top + offset + h / 2.0)
    case LeftEdge => Pos(left - w / 2.0, top + offset + h / 2.0)
    case TopEdge => Pos(left + offset + w / 2.0, top - h / 2.0)
    case BottomEdge => Pos(left + offset + w / 2.0, bottom + h / 2.0)
  }

  /** Where the preview shows the point `(x, y)` of the server's screen. */
  function ServerPoint(s: Screen, center: Pos, x: int, y: int): Pos {
    Pos(ServerCorner(s, center).px + x as real * SCALE, ServerCorner(s, center).py + y as real * SCALE)
  }

  /** Where the preview shows the point `(x, y)` of a peer's screen. */
  function PeerPoint(s: Screen, p: PeerScreen, center: Pos, x: int, y: int): Pos {
    var c := PeerCenter(s, p, center);
    Pos(c.px - p.screen.width as real * SCALE / 2.0 + x as real * SCALE,
        c.py - p.screen.height as real * SCALE / 2.0 + y as real * SCALE)
  }

  /** One pixel past the edge and beside the peer's screen. */
  predicate JustPast(s: Screen, p: PeerScreen, x: i32, y: i32) {
    && 0 <= Along(p.edge, x, y) - p.offset < Span(p)
    && match p.edge
       case LeftEdge => x == -1
       case RightEdge => x == s.width
       case TopEdge => y == -1
       case BottomEdge => y == s.height
  }

  /** A cursor that steps one pixel across an edge beside the peer's screen enters the peer at
      the very point of the preview where it left the server. */
  lemma EntryMatchesPreview(l: Layout, x: i32, y: i32, center: Pos)
    requires IsUsual(l.serverScreen)
    requires var c := CheckEdge(l, x, y);
             c.Cross? && IsUsual(l.peers[CheckedIndex(l, x, y)].screen)
             && JustPast(l.serverScreen, l.peers[CheckedIndex(l, x, y)], x, y)
    ensures var c := CheckEdge(l, x, y);
            PeerPoint(l.serverScreen, l.peers[c.peerIndex], center, c.entryX, c.entryY)
            == ServerPoint(l.serverScreen, center, x, y)
  {
    var c := CheckEdge(l, x, y);
    CheckedPeer(l, 0, x, y);
  }
}
