/** The site-number text box of the window.  Tk asks validate_input about
    every proposed content of the box ("%P") and keeps the old content when
    the answer is no. */
module Gui {
  import opened Text

  /** The longest site number the box takes. */
  const MaxSiteDigits: nat := 8

  /** validate_input: `input.isdigit() and len(input) <= 8 or input == ""`.
      A proposal is taken exactly when it is at most eight digits, the empty
      box included (for which isdigit() is false and the last test decides). */
  function ValidateInput(proposed: string): (ok: bool)
    ensures ok <==> IsDigits(proposed) && |proposed| <= MaxSiteDigits
  {
    (|proposed| > 0 && IsDigits(proposed) && |proposed| <= MaxSiteDigits) || proposed == ""
  }

  /** What the box holds after one edit: the proposal when it is accepted,
      the old content otherwise. */
  function Edit(content: string, proposed: string): (r: string)
    ensures r == proposed || r == content
    ensures ValidateInput(proposed) ==> r == proposed
  {
    if ValidateInput(proposed) then proposed else content
  }

  /** The content after a series of edits, starting from `content`. */
  function EditAll(content: string, proposals: seq<string>): string
    decreases |proposals|
  {
    if proposals == [] then content else EditAll(Edit(content, proposals[0]), proposals[1..])
  }

  /** Starting from an acceptable content (the empty box), every series of
      edits leaves at most eight digits in the box. */
  lemma {:induction false} EditsKeepSiteNumber(content: string, proposals: seq<string>)
    requires ValidateInput(content)
    ensures IsDigits(EditAll(content, proposals))
    ensures |EditAll(content, proposals)| <= MaxSiteDigits
    decreases |proposals|
  {
    if proposals != [] {
      EditsKeepSiteNumber(Edit(content, proposals[0]), proposals[1..]);
    }
  }

  /** The box ends with the last proposal of a series that was accepted. */
  lemma {:induction false} EditAllLast(content: string, proposals: seq<string>, k: nat)
    requires k < |proposals| && ValidateInput(proposals[k])
    requires forall j :: k < j < |proposals| ==> !ValidateInput(proposals[j])
    ensures EditAll(content, proposals) == proposals[k]
    decreases |proposals|
  {
    if k == 0 {
      RejectedEditsKeep(proposals[0], proposals[1..]);
    } else {
      EditAllLast(Edit(content, proposals[0]), proposals[1..], k - 1);
    }
  }

  /** Edits that are all rejected leave the content as it was. */
  lemma {:induction false} RejectedEditsKeep(content: string, proposals: seq<string>)
    requires forall j :: 0 <= j < |proposals| ==> !ValidateInput(proposals[j])
    ensures EditAll(content, proposals) == content
  {
    if proposals != [] {
      RejectedEditsKeep(content, proposals[1..]);
    }
  }

  /** Deleting from the end of an accepted content is always accepted. */
  lemma PrefixAccepted(proposed: string, n: nat)
    requires ValidateInput(proposed) && n <= |proposed|
    ensures ValidateInput(proposed[..n])
  {
    assert forall i :: 0 <= i < n ==> proposed[..n][i] == proposed[i];
  }
}
