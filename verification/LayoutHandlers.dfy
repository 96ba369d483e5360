/** The two handlers over the stored tables of one screen, each as the body of its transaction. */
module LayoutHandlers {
  import opened Optional
  import opened ScreenLayout
  import opened Widgets

  datatype WriteAnswer =
    | Stored(revision: nat)
    | RevisionRequired
    | Invalid(fault: Fault)
    | LayoutChanged

  /** The layouts the validation lets through. */
  ghost predicate Accepted(widgets: seq<Widget>) {
    DrawableLayout(widgets) || WrappingLayout(widgets)
  }

  class Screen {
    var row: Option<Row>
    var history: History

    ghost function Stored(): Table
      reads this
    {
      Table(row, history)
    }

    constructor ()
      ensures Stored() == EMPTY
    {
      row, history := None, map[];
    }

    /** Stores an arrangement on the revision the editor read, keeping what it replaces. */
    method SetLayout(revision: Option<int>, arrangement: Arrangement) returns (answer: WriteAnswer)
      modifies this
      ensures !answer.Stored? ==> Stored() == old(Stored())
      ensures answer.Stored? ==>
                && revision.Some? && Accepted(arrangement.widgets)
                && Write(old(Stored()), revision.value, arrangement) == Some(Stored())
                && row == Some(Row(answer.revision, arrangement))
      ensures answer.RevisionRequired? <==> revision.None?
      ensures answer.Invalid? <==> revision.Some? && !Accepted(arrangement.widgets)
      ensures answer.LayoutChanged? <==>
                && revision.Some? && Accepted(arrangement.widgets)
                && RevisionOf(old(row)) != revision.value
    {
      if revision.None? {
        return RevisionRequired;
      }
      var fault, _ := Validate(arrangement.widgets);
      if !fault.Fine? {
        return Invalid(fault);
      }
      var current := RevisionOf(row);
      if current != revision.value {
        return LayoutChanged;
      }
      if current > 0 {
        history := Kept(Table(row, history));
        history := Trimmed(history);
      }
      row := Some(Row(current + 1, arrangement));
      answer := WriteAnswer.Stored(current + 1);
    }

    /** Takes the stored arrangement away and leaves the history. */
    method ResetLayout() returns (found: bool)
      modifies this
      ensures found <==> old(row).Some?
      ensures found ==> Reset(old(Stored())) == Some(Stored())
      ensures !found ==> Stored() == old(Stored())
    {
      if row.None? {
        return false;
      }
      history := Kept(Table(row, history));
      row := None;
      found := true;
    }
  }
}
