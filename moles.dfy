/** The mole: a grid position and a cycling index into its sprite images. */
module Moles {
  import opened Coordinates

  /** The image index after one hit: one further, wrapping at the image count. */
  function NextImageIndex(index: nat, imageCount: nat): (r: nat)
    requires 0 < imageCount
    ensures r < imageCount
    ensures index < imageCount - 1 ==> r == index + 1
    ensures index == imageCount - 1 ==> r == 0
  {
    (index + 1) % imageCount
  }

  /** The image index of a mole that started at index 0 and has been hit k times. */
  function IndexAfterHits(k: nat, imageCount: nat): nat
    requires 0 < imageCount || k == 0
  {
    if k == 0 then 0 else NextImageIndex(IndexAfterHits(k - 1, imageCount), imageCount)
  }

  /** After k hits the image index is k mod the image count. */
  lemma {:induction false} IndexAfterHitsIsMod(k: nat, imageCount: nat)
    requires 0 < imageCount
    ensures IndexAfterHits(k, imageCount) == k % imageCount
  {
    if k > 0 {
      IndexAfterHitsIsMod(k - 1, imageCount);
      ModSucc(k - 1, imageCount);
    }
  }

  /** Taking the successor commutes with reduction modulo n. */
  lemma ModSucc(a: nat, n: nat)
    requires 0 < n
    ensures (a + 1) % n == (a % n + 1) % n
  {
    var q, r := a / n, a % n;
    assert 0 <= r < n && a == q * n + r;
    if r + 1 < n {
      ModUnique(r + 1, n, 0, r + 1);
      ModUnique(a + 1, n, q, r + 1);
    } else {
      ModUnique(n, n, 1, 0);
      assert (q + 1) * n == q * n + n;
      ModUnique(a + 1, n, q + 1, 0);
    }
  }

  lemma MulAtLeast(x: int, n: int)
    requires 1 <= x && 0 < n
    ensures n <= x * n
  {
  }

  /** The remainder is determined by any quotient-remainder decomposition. */
  lemma ModUnique(a: int, n: int, q: int, r: int)
    requires 0 < n && 0 <= r < n && a == q * n + r
    ensures a % n == r
  {
    var q', r' := a / n, a % n;
    assert a == q' * n + r';
    assert (q - q') * n == r' - r;
    if q > q' {
      MulAtLeast(q - q', n);
    } else if q < q' {
      MulAtLeast(q' - q, n);
    }
  }

  /** A mole's state as a value: what the class below keeps in its fields. */
  datatype MoleState = MoleState(pos: Cell, imageIndex: nat, hits: nat)

  /** The state after set_pos(p) on a mole with imageCount images. */
  function AfterSetPos(m: MoleState, p: Cell, imageCount: nat): MoleState
    requires 0 < imageCount
  {
    MoleState(p, NextImageIndex(m.imageIndex, imageCount), m.hits + 1)
  }

  /** The image index agrees with the number of hits, as it does in a mole's life from index 0. */
  predicate Consistent(m: MoleState, imageCount: nat) {
    (0 < imageCount || m.hits == 0) && m.imageIndex == IndexAfterHits(m.hits, imageCount)
  }

  /** set_pos keeps the state consistent, and the index stays a valid image index. */
  lemma AfterSetPosConsistent(m: MoleState, p: Cell, imageCount: nat)
    requires 0 < imageCount && Consistent(m, imageCount)
    ensures Consistent(AfterSetPos(m, p, imageCount), imageCount)
    ensures AfterSetPos(m, p, imageCount).imageIndex == (m.hits + 1) % imageCount < imageCount
  {
    IndexAfterHitsIsMod(m.hits + 1, imageCount);
  }

  class Mole<Image> {
    const images: seq<Image>
    var imageIndex: nat
    var pos: Cell
    /** The number of set_pos calls so far. */
    ghost var hits: nat

    ghost function State(): MoleState
      reads this
    {
      MoleState(pos, imageIndex, hits)
    }

    ghost predicate Valid()
      reads this
    {
      Consistent(State(), |images|)
    }

    /** A new mole sits at pos and shows image 0. An empty image list is accepted here. */
    constructor (images: seq<Image>, pos: Cell)
      ensures Valid()
      ensures this.images == images && this.pos == pos && imageIndex == 0 && hits == 0
    {
      this.images := images;
      this.pos := pos;
      imageIndex := 0;
      hits := 0;
    }

    method GetPos() returns (p: Cell)
      ensures p == pos
    {
      p := pos;
    }

    /**
     * Moves the mole and advances its image index by one, modulo the
     * number of images (which must be non-empty for the modulo).
     */
    method SetPos(p: Cell)
      requires Valid() && 0 < |images|
      modifies this
      ensures Valid()
      ensures State() == AfterSetPos(old(State()), p, |images|)
      ensures pos == p && imageIndex == hits % |images| < |images|
    {
      AfterSetPosConsistent(State(), p, |images|);
      pos := p;
      imageIndex := (imageIndex + 1) % |images|;
      hits := hits + 1;
    }

    /**
     * What draw_onto blits: the current image, with its top-left corner at
     * the corner pixel of the mole's cell. For a mole on the grid that pixel
     * is on the screen and a click on it lands in the mole's cell.
     */
    method DrawOnto() returns (image: Image, topLeft: Pixel)
      requires Valid() && 0 < |images|
      ensures image == images[hits % |images|]
      ensures topLeft == Pixel(pos.col * CellWidth, pos.row * CellHeight)
      ensures InGrid(pos) ==> OnScreen(topLeft) && ScreenToGridPoint(topLeft) == pos
    {
      IndexAfterHitsIsMod(hits, |images|);
      image := images[imageIndex];
      topLeft := GridToScreenPoint(pos);
      GridRoundTrip(pos);
    }
  }
}
