/** Tile colours, players and cell ownership for the Filler board. */
module Tiles {

  /** The six tile colours ('r', 'g', 'y', 'b', 'p', 'w'). */
  datatype Tile = Red | Green | Yellow | Blue | Purple | White

  /** The colours in the fixed order that replaces the unordered colour set of the code. */
  const Palette: seq<Tile> := [Red, Green, Yellow, Blue, Purple, White]

  /** Every colour, as a set. */
  const AllTiles: set<Tile> := {Red, Green, Yellow, Blue, Purple, White}

  /** A player is 0 or 1. */
  type Player = p: int | 0 <= p <= 1

  function Opponent(p: Player): Player { 1 - p }

  /** The content of a cell of the ownership grid: `None`, or the player who holds the cell. */
  datatype Owner = Unowned | Owned(player: Player)

  /** The position of a colour in the palette. */
  function Rank(t: Tile): (r: nat)
    ensures r < |Palette| && Palette[r] == t
  {
    match t
    case Red => 0
    case Green => 1
    case Yellow => 2
    case Blue => 3
    case Purple => 4
    case White => 5
  }

  /** The elements of `ps` that lie in `cs`, in the order of `ps`. */
  function Keep(ps: seq<Tile>, cs: set<Tile>): seq<Tile>
  {
    if ps == [] then [] else (if ps[0] in cs then [ps[0]] else []) + Keep(ps[1..], cs)
  }

  lemma {:induction false} KeepMembers(ps: seq<Tile>, cs: set<Tile>)
    ensures forall t :: t in Keep(ps, cs) <==> t in ps && t in cs
  {
    if ps != [] {
      KeepMembers(ps[1..], cs);
      assert ps == [ps[0]] + ps[1..];
    }
  }

  /** The set of elements of `ps`. */
  function Elements(ps: seq<Tile>): set<Tile>
  {
    if ps == [] then {} else {ps[0]} + Elements(ps[1..])
  }

  lemma {:induction false} KeepCard(ps: seq<Tile>, cs: set<Tile>)
    requires forall m, n :: 0 <= m < n < |ps| ==> ps[m] != ps[n]
    ensures |Keep(ps, cs)| == |Elements(ps) * cs|
    ensures forall t :: t in Elements(ps) <==> t in ps
  {
    if ps != [] {
      var rest := ps[1..];
      KeepCard(rest, cs);
      assert ps == [ps[0]] + rest;
      assert ps[0] !in Elements(rest);
      var kept := Elements(rest) * cs;
      if ps[0] in cs {
        assert Elements(ps) * cs == {ps[0]} + kept;
        assert |{ps[0]} + kept| == 1 + |kept|;
      } else {
        assert Elements(ps) * cs == kept;
      }
    }
  }

  lemma {:induction false} KeepOrdered(ps: seq<Tile>, cs: set<Tile>, lo: nat)
    requires lo + |ps| <= |Palette| && ps == Palette[lo..lo + |ps|]
    ensures forall t :: t in Keep(ps, cs) ==> lo <= Rank(t)
    ensures forall m, n :: 0 <= m < n < |Keep(ps, cs)| ==> Rank(Keep(ps, cs)[m]) < Rank(Keep(ps, cs)[n])
  {
    if ps != [] {
      assert ps[1..] == Palette[lo + 1..lo + 1 + |ps[1..]|];
      KeepOrdered(ps[1..], cs, lo + 1);
      KeepMembers(ps[1..], cs);
      assert Rank(ps[0]) == lo;
    }
  }

  lemma PaletteRanks()
    ensures forall m :: 0 <= m < |Palette| ==> Rank(Palette[m]) == m
    ensures forall m, n :: 0 <= m < n < |Palette| ==> Palette[m] != Palette[n]
    ensures forall t :: t in Palette && t in AllTiles && t in Elements(Palette)
  {
    forall m | 0 <= m < |Palette| ensures Rank(Palette[m]) == m {
      if m == 0 {} else if m == 1 {} else if m == 2 {} else if m == 3 {} else if m == 4 {} else {}
    }
    KeepCard(Palette, {});
    forall t: Tile ensures t in Palette && t in AllTiles {
      assert Palette[Rank(t)] == t;
    }
  }

  lemma KeepAll(ps: seq<Tile>, cs: set<Tile>)
    requires forall m, n :: 0 <= m < n < |ps| ==> ps[m] != ps[n]
    requires forall t: Tile :: t in ps
    ensures forall t :: t in Keep(ps, cs) <==> t in cs
    ensures |Keep(ps, cs)| == |cs|
  {
    KeepMembers(ps, cs);
    KeepCard(ps, cs);
    assert Elements(ps) * cs == cs;
  }

  /**
   * The colours of `cs` listed in palette order: a deterministic stand-in for iterating over
   * a set of colours. The result holds exactly the colours of `cs`, each once, by increasing rank.
   */
  function InPaletteOrder(cs: set<Tile>): (r: seq<Tile>)
    ensures forall t :: t in r <==> t in cs
    ensures forall m, n :: 0 <= m < n < |r| ==> Rank(r[m]) < Rank(r[n])
    ensures |r| == |cs|
  {
    KeepOrdered(Palette, cs, 0);
    PaletteRanks();
    KeepAll(Palette, cs);
    Keep(Palette, cs)
  }

  /** `AllTiles` holds every colour. */
  lemma EveryTile()
    ensures forall t: Tile :: t in AllTiles
  {
    forall t: Tile ensures t in AllTiles {
      assert Palette[Rank(t)] == t;
    }
  }

  /** When at most two colours are ruled out, at least four remain available. */
  lemma FewForbidden(f: set<Tile>)
    requires |f| <= 2
    ensures |AllTiles - f| >= 4
  {
    EveryTile();
    assert AllTiles * f == f;
    assert AllTiles == (AllTiles - f) + f;
  }
}
