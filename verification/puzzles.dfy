/** The constant puzzle catalog (data/puzzles.ts) and the facts about it that
    the round state machine relies on. */
module Puzzles {
  import opened Types

  /** The hints of an entry, whose text is not part of this model. */
  const NoHints: Hints := ["", "", "", ""]

  /** The titles of the catalog entries. */
  const RevolutionTitle := "Französische Revolution"
  const MoonLandingTitle := "Mondlandung"
  const AmericaTitle := "Entdeckung Amerikas"
  const WallTitle := "Mauerfall"
  const FirstWarTitle := "Beginn des Ersten Weltkriegs"
  const ReformationTitle := "Reformation"
  const SecondWarTitle := "Ende des Zweiten Weltkriegs"

  /** The seven catalog entries, in catalog order, with their ids, years and
      titles. The German prose of the hints and explanations is display
      text that no rule of the game inspects; it is not part of this model
      and stands here as empty strings. */
  const PUZZLES: seq<Puzzle> := [
    Puzzle("1", "1789",
      NoHints,
      Some(RevolutionTitle),
      Some(""),
      None),
    Puzzle("2", "1969",
      NoHints,
      Some(MoonLandingTitle),
      Some(""),
      None),
    Puzzle("3", "1492",
      NoHints,
      Some(AmericaTitle),
      Some(""),
      None),
    Puzzle("4", "1989",
      NoHints,
      Some(WallTitle),
      Some(""),
      None),
    Puzzle("5", "1914",
      NoHints,
      Some(FirstWarTitle),
      Some(""),
      None),
    Puzzle("6", "1517",
      NoHints,
      Some(ReformationTitle),
      Some(""),
      None),
    Puzzle("7", "1945",
      NoHints,
      Some(SecondWarTitle),
      Some(""),
      None)
  ]

  /** No two entries of `ps` share an id. */
  predicate DistinctIds(ps: seq<Puzzle>) {
    forall i, j :: 0 <= i < j < |ps| ==> ps[i].id != ps[j].id
  }

  /** The entries of `ps` whose id is not `id`, in catalog order
      (`PUZZLES.filter(p => p.id !== id)`). */
  function WithoutId(ps: seq<Puzzle>, id: string): (r: seq<Puzzle>)
    ensures |r| <= |ps|
  {
    if ps == [] then []
    else if ps[0].id != id then [ps[0]] + WithoutId(ps[1..], id)
    else WithoutId(ps[1..], id)
  }

  /** The filter keeps exactly the entries whose id differs. */
  lemma {:induction false} WithoutIdMembers(ps: seq<Puzzle>, id: string)
    ensures forall p :: p in WithoutId(ps, id) <==> p in ps && p.id != id
  {
    if ps != [] {
      WithoutIdMembers(ps[1..], id);
      assert ps == [ps[0]] + ps[1..];
    }
  }

  /** The first entry of `ps` whose id is `id` (`PUZZLES.find(p => p.id === id)`). */
  function FindById(ps: seq<Puzzle>, id: string): (r: Option<Puzzle>)
    ensures r.Some? <==> exists p :: p in ps && p.id == id
    ensures r.Some? ==> r.value in ps && r.value.id == id
  {
    if ps == [] then None
    else if ps[0].id == id then Some(ps[0])
    else FindById(ps[1..], id)
  }

  /** Removing an id that no entry has removes nothing. */
  lemma {:induction false} WithoutAbsentId(ps: seq<Puzzle>, id: string)
    requires forall k :: 0 <= k < |ps| ==> ps[k].id != id
    ensures WithoutId(ps, id) == ps
  {
    if ps != [] {
      WithoutAbsentId(ps[1..], id);
    }
  }

  /** A suffix of a list with distinct ids has distinct ids. */
  lemma DistinctTail(ps: seq<Puzzle>)
    requires ps != [] && DistinctIds(ps)
    ensures DistinctIds(ps[1..])
    ensures forall k :: 0 <= k < |ps[1..]| ==> ps[1..][k].id != ps[0].id
  {
    forall i, j | 0 <= i < j < |ps[1..]| ensures ps[1..][i].id != ps[1..][j].id {
      assert ps[1..][i] == ps[i + 1] && ps[1..][j] == ps[j + 1];
    }
  }

  /** Removing one id from a list of distinct ids drops at most one entry. */
  lemma {:induction false} WithoutIdDropsAtMostOne(ps: seq<Puzzle>, id: string)
    requires DistinctIds(ps)
    ensures |WithoutId(ps, id)| >= |ps| - 1
  {
    if ps != [] {
      DistinctTail(ps);
      if ps[0].id == id {
        WithoutAbsentId(ps[1..], id);
      } else {
        WithoutIdDropsAtMostOne(ps[1..], id);
      }
    }
  }

  /** With distinct ids, looking up an entry's own id finds that entry. */
  lemma {:induction false} FindOwnId(ps: seq<Puzzle>, p: Puzzle)
    requires DistinctIds(ps)
    requires p in ps
    ensures FindById(ps, p.id) == Some(p)
  {
    if ps[0] != p {
      DistinctTail(ps);
      var k :| 0 <= k < |ps[1..]| && ps[1..][k] == p;
      FindOwnId(ps[1..], p);
    }
  }

  /** The catalog has seven entries with ids "1" to "7" in order: the ids
      are pairwise distinct and the first entry, the one a session starts
      on, has id "1". */
  lemma CatalogIds()
    ensures |PUZZLES| == 7
    ensures DistinctIds(PUZZLES)
    ensures PUZZLES[0].id == "1"
  {
    assert PUZZLES[0].id == "1" && PUZZLES[1].id == "2" && PUZZLES[2].id == "3";
    assert PUZZLES[3].id == "4" && PUZZLES[4].id == "5" && PUZZLES[5].id == "6";
    assert PUZZLES[6].id == "7";
  }

  /** Every year in the catalog is four ASCII digits, so the evaluator never
      takes its length-mismatch fallback on a target. */
  lemma CatalogYears()
    ensures forall p :: p in PUZZLES ==> IsYearString(p.year)
  {
    assert IsYearString(PUZZLES[0].year) && IsYearString(PUZZLES[1].year);
    assert IsYearString(PUZZLES[2].year) && IsYearString(PUZZLES[3].year);
    assert IsYearString(PUZZLES[4].year) && IsYearString(PUZZLES[5].year);
    assert IsYearString(PUZZLES[6].year);
  }

  /** Excluding any id leaves at least six puzzles to choose from. */
  lemma AvailableNonEmpty(id: string)
    ensures |WithoutId(PUZZLES, id)| >= 6
    ensures forall p :: p in WithoutId(PUZZLES, id) ==> p.id != id
  {
    CatalogIds();
    WithoutIdDropsAtMostOne(PUZZLES, id);
    WithoutIdMembers(PUZZLES, id);
  }

  /** Every catalog entry can be found again by its id. */
  lemma LookupOwnId(p: Puzzle)
    requires p in PUZZLES
    ensures FindById(PUZZLES, p.id) == Some(p)
  {
    CatalogIds();
    FindOwnId(PUZZLES, p);
  }
}
