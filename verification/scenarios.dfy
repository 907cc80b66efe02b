/** Concrete runs of the page, worked out by the verifier. */
module Scenarios {
  import opened Wrappers
  import opened TaskList

  /** A blank field alerts on Enter but is silently ignored on click. */
  lemma BlankSubmissions()
    ensures var p := OnPageLoad(Some(["A"])).(input := "  ");
      && OnKeyPress(p, "Enter") == p.(alerts := 1)
      && OnAddClick(p) == p
  {
    assert Text.Trim("  ") == [];
  }

  /** Opening the page on two clean entries renders them as rows 0 and 1 and
      writes nothing. */
  lemma LoadTwo(a: string, b: string)
    requires a != [] && Text.Trimmed(a)
    requires b != [] && Text.Trimmed(b)
    ensures var p := OnPageLoad(Some([a, b]));
      && p.rows == [Row(0, a), Row(1, b)]
      && p.stored == Some([a, b])
  {
    var p := OnPageLoad(Some([a, b]));
    var shown := Rendered([a, b]);
    assert shown == [a, b] by {
      RenderedClean([a, b]);
    }
    assert |p.rows| == 2;
    assert p.rows[0] == Row(0, shown[0]);
    assert p.rows[1] == Row(1, shown[1]);
  }

  /** Filtering "A" out of ["A", "B", "A"]. */
  lemma DropBothAs()
    ensures Seqs.RemoveAll(["A", "B", "A"], "A") == ["B"]
  {
    DropOuter("A", "B");
  }

  /** Filtering `x` out of `[x, y, x]` leaves `[y]`. */
  lemma DropOuter<T>(x: T, y: T)
    requires x != y
    ensures Seqs.RemoveAll([x, y, x], x) == [y]
  {
    assert [x, y, x][1..] == [y, x];
    assert [y, x][1..] == [x];
    assert [x][1..] == [];
    assert Seqs.RemoveAll([x], x) == [];
    assert Seqs.RemoveAll([y, x], x) == [y];
  }

  /** Three rows, two of them "A", mirrored in storage. */
  function ThreeRows(): Page {
    Page(Some(["A", "B", "A"]), [Row(0, "A"), Row(1, "B"), Row(2, "A")], "", 0, 3)
  }

  /** With ["A", "B", "A"] on screen, removing the first "A" row leaves the
      second "A" row rendered but wipes both stored copies. */
  lemma RemoveDuplicate()
    ensures Remove(ThreeRows(), 0) == Success(Page(Some(["B"]), [Row(1, "B"), Row(2, "A")], "", 0, 3))
  {
    var p := ThreeRows();
    assert WellFormed(p);
    RemoveRowAt(p, 0);
    DropBothAs();
    assert p.rows[..0] + p.rows[1..] == [Row(1, "B"), Row(2, "A")];
  }
}
