/**
 * The page-level side of the committee pyramid builder (NUV_Yuva.js): `run`
 * looks up the first `.committee-grid` of the document and, unless it is
 * missing, already marked with `data-pyramid="1"` or without member cards,
 * replaces it by the pyramid built from its cards, marking that pyramid with
 * `data-pyramid="1"`.
 *
 * The document is the sequence of its elements in document order that the
 * builder can find or create; everything else is `OtherElement`.
 */
module CommitteePage {
  import opened Wrappers
  import opened CommitteeRoster
  import opened CommitteePyramid

  datatype Block =
    | CommitteeGrid(mark: Option<string>, cards: seq<Card>)
    | PyramidBlock(mark: Option<string>, rows: seq<Row>)
    | OtherElement

  /** The value `run` writes to, and looks for in, `data-pyramid`. */
  const PyramidMark: string := "1"

  /** `document.querySelector('.committee-grid')`: the position of the first grid, if any. */
  function FindGrid(doc: seq<Block>): (o: Option<nat>)
    ensures o.Some? ==> o.value < |doc| && doc[o.value].CommitteeGrid?
    ensures o.Some? ==> forall j :: 0 <= j < o.value ==> !doc[j].CommitteeGrid?
    ensures o.None? ==> forall j :: 0 <= j < |doc| ==> !doc[j].CommitteeGrid?
  {
    if doc == [] then None
    else if doc[0].CommitteeGrid? then Some(0)
    else
      match FindGrid(doc[1..])
      case None => None
      case Some(i) => Some(i + 1)
  }

  /** The early returns of `run`: no grid, a grid already marked, or a grid without cards. */
  predicate Skips(doc: seq<Block>)
  {
    match FindGrid(doc)
    case None => true
    case Some(i) => doc[i].mark == Some(PyramidMark) || doc[i].cards == []
  }

  /**
   * The document after `run`: unchanged when `run` returns early, and
   * otherwise changed in one place only, where the grid was.
   */
  function RunResult(doc: seq<Block>): (out: seq<Block>)
    ensures |out| == |doc|
    ensures out == doc <==> Skips(doc)
  {
    match FindGrid(doc)
    case None => doc
    case Some(i) =>
      var grid := doc[i];
      if grid.mark == Some(PyramidMark) || grid.cards == [] then doc
      else
        assert doc[i := PyramidBlock(Some(PyramidMark), [])][i].PyramidBlock?;
        doc[i := PyramidBlock(Some(PyramidMark), Pyramid(ReadRoster(grid.cards)))]
  }

  /** How many grids the document holds. */
  function GridCount(doc: seq<Block>): nat
  {
    if doc == [] then 0 else (if doc[0].CommitteeGrid? then 1 else 0) + GridCount(doc[1..])
  }

  lemma {:induction false} GridCountReplace(doc: seq<Block>, i: nat, b: Block)
    requires i < |doc| && doc[i].CommitteeGrid? && !b.CommitteeGrid?
    ensures GridCount(doc[i := b]) == GridCount(doc) - 1
    decreases |doc|
  {
    if i > 0 {
      assert doc[i := b][1..] == doc[1..][i - 1 := b];
      GridCountReplace(doc[1..], i - 1, b);
    } else {
      assert doc[i := b][1..] == doc[1..];
    }
  }

  lemma {:induction false} NoGridCounted(doc: seq<Block>)
    ensures GridCount(doc) == 0 <==> FindGrid(doc).None?
    decreases |doc|
  {
    if doc != [] {
      NoGridCounted(doc[1..]);
    }
  }

  /**
   * When `run` does not return early it replaces the first grid by the
   * pyramid of its cards marked "1" and leaves every other element as it was.
   */
  lemma RunReplacesGrid(doc: seq<Block>)
    requires !Skips(doc)
    ensures FindGrid(doc).Some?
    ensures var i := FindGrid(doc).value;
      && RunResult(doc)[i] == PyramidBlock(Some(PyramidMark), Pyramid(ReadRoster(doc[i].cards)))
      && forall j :: 0 <= j < |doc| && j != i ==> RunResult(doc)[j] == doc[j]
  {
    var i := FindGrid(doc).value;
    RunResultIs(doc, i, PyramidBlock(Some(PyramidMark), Pyramid(ReadRoster(doc[i].cards))));
  }

  /** When `run` does not return early the document holds one grid fewer. */
  lemma RunRemovesGrid(doc: seq<Block>)
    requires !Skips(doc)
    ensures GridCount(RunResult(doc)) == GridCount(doc) - 1
  {
    var i := FindGrid(doc).value;
    var b := PyramidBlock(Some(PyramidMark), Pyramid(ReadRoster(doc[i].cards)));
    RunResultIs(doc, i, b);
    GridCountReplace(doc, i, b);
  }

  lemma RunResultIs(doc: seq<Block>, i: nat, b: Block)
    requires !Skips(doc) && FindGrid(doc) == Some(i)
    requires b == PyramidBlock(Some(PyramidMark), Pyramid(ReadRoster(doc[i].cards)))
    ensures RunResult(doc) == doc[i := b]
  {
  }

  /** On a document with at most one grid a second `run` changes nothing. */
  lemma RunTwice(doc: seq<Block>)
    requires GridCount(doc) <= 1
    ensures RunResult(RunResult(doc)) == RunResult(doc)
  {
    if !Skips(doc) {
      RunRemovesGrid(doc);
      NoGridCounted(RunResult(doc));
    }
  }

  /** The page the builder runs on. */
  class Page {
    var blocks: seq<Block>

    constructor (doc: seq<Block>)
      ensures blocks == doc
    {
      blocks := doc;
    }

    /** `run`: look up the first grid, return early or swap in the pyramid. */
    method Run()
      modifies this
      ensures blocks == RunResult(old(blocks))
    {
      var i := 0;
      while i < |blocks| && !blocks[i].CommitteeGrid?
        invariant 0 <= i <= |blocks|
        invariant forall j :: 0 <= j < i ==> !blocks[j].CommitteeGrid?
      {
        i := i + 1;
      }
      if i == |blocks| {
        return;
      }
      FindGridFirst(blocks, i);
      var grid := blocks[i];
      if grid.mark == Some(PyramidMark) || grid.cards == [] {
        return;
      }
      var rows := BuildPyramid(grid.cards);
      blocks := blocks[i := PyramidBlock(Some(PyramidMark), rows)];
    }
  }

  /** The first grid found by a scan from the front is the one `FindGrid` gives. */
  lemma FindGridFirst(doc: seq<Block>, i: nat)
    requires i <= |doc| && forall j :: 0 <= j < i ==> !doc[j].CommitteeGrid?
    ensures i == |doc| ==> FindGrid(doc).None?
    ensures i < |doc| && doc[i].CommitteeGrid? ==> FindGrid(doc) == Some(i)
  {
    match FindGrid(doc)
    case None =>
    case Some(k) =>
      assert !(k < i);
  }
}
