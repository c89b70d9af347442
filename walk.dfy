/** The shape every from_data in nmea/nmea.cpp shares: a loop over the
    comma-separated words with a field counter, a switch on the counter
    that writes the record, and a return value that compares the final
    count with a fixed number. A sentence module gives its switch as a Step
    function; Walk is what the whole loop does to the record. */
module Walks {
  import opened Text

  /** One switch arm: the record after the word at a position, or None when
      the arm's interpreter throws (or fails its assert). */
  type Arm<!R> = (R, nat, string) -> Option<R>

  /** Where the loop leaves the record: aborted when an interpreter threw,
      with the record as written up to the word before. */
  datatype Walked<R> = Walked(rec: R, aborted: bool)

  /** What from_data does for its caller: it returns a bool, or the exception
      (or failed assert) of an interpreter leaves the call. */
  datatype Outcome = Returned(ok: bool) | Aborted

  /** The loop from position field onwards. */
  function Walk<R>(step: Arm<R>, r: R, words: seq<string>, field: nat): Walked<R>
    requires field <= |words|
    decreases |words| - field
  {
    if field == |words| then Walked(r, false)
    else match step(r, field, words[field])
      case None => Walked(r, true)
      case Some(next) => Walk(step, next, words, field + 1)
  }

  /** One turn of the loop: an arm that reads moves on to the next position. */
  lemma WalkNext<R>(step: Arm<R>, r: R, words: seq<string>, field: nat, next: R)
    requires field < |words| && step(r, field, words[field]) == Some(next)
    ensures Walk(step, r, words, field) == Walk(step, next, words, field + 1)
  {
  }

  /** An arm that throws ends the loop with the record as it stands. */
  lemma WalkStop<R>(step: Arm<R>, r: R, words: seq<string>, field: nat)
    requires field < |words| && step(r, field, words[field]).None?
    ensures Walk(step, r, words, field) == Walked(r, true)
  {
  }

  /** The return statement after the loop: true iff the count matched. */
  function Verdict<R>(w: Walked<R>, count: nat, expected: nat): (o: Outcome)
    ensures o == Returned(true) <==> !w.aborted && count == expected
  {
    if w.aborted then Aborted else Returned(count == expected)
  }

  /** The switch has no arm for position n or any later one. */
  ghost predicate SkipsFrom<R(!new)>(step: Arm<R>, n: nat)
  {
    forall r: R, field: nat, word: string :: field >= n ==> step(r, field, word) == Some(r)
  }

  /** Past the last arm the loop only counts. */
  lemma {:induction false} WalkSkipped<R(!new)>(step: Arm<R>, n: nat, r: R, words: seq<string>, field: nat)
    requires SkipsFrom(step, n) && n <= field <= |words|
    ensures Walk(step, r, words, field) == Walked(r, false)
    decreases |words| - field
  {
    if field < |words| {
      assert step(r, field, words[field]) == Some(r);
      WalkSkipped(step, n, r, words, field + 1);
    }
  }

  /** Words after position n change nothing in the record and abort nothing. */
  lemma {:induction false} WalkTrailing<R(!new)>(step: Arm<R>, n: nat, r: R, words: seq<string>, field: nat)
    requires SkipsFrom(step, n) && field <= n <= |words|
    ensures Walk(step, r, words, field) == Walk(step, r, words[..n], field)
    decreases n - field
  {
    if field == n {
      WalkSkipped(step, n, r, words, field);
    } else {
      assert words[..n][field] == words[field];
      match step(r, field, words[field])
      case None =>
      case Some(next) => WalkTrailing(step, n, next, words, field + 1);
    }
  }

  /** A property of the record that every arm keeps is kept by the loop. */
  ghost predicate Keeps<R(!new)>(step: Arm<R>, inv: R -> bool)
  {
    forall r: R, field: nat, word: string ::
      inv(r) && step(r, field, word).Some? ==> inv(step(r, field, word).value)
  }

  lemma {:induction false} WalkKeeps<R(!new)>(step: Arm<R>, inv: R -> bool, r: R, words: seq<string>, field: nat)
    requires Keeps(step, inv) && inv(r) && field <= |words|
    ensures inv(Walk(step, r, words, field).rec)
    decreases |words| - field
  {
    if field < |words| {
      match step(r, field, words[field])
      case None =>
      case Some(next) => WalkKeeps(step, inv, next, words, field + 1);
    }
  }
}
