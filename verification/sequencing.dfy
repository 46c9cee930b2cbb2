/** The reference meaning of "render these parts in order and append": the
    first failing part aborts with its error, otherwise the texts are
    concatenated in order. */
module Sequencing {
  import opened Wrappers

  function Concat(ts: seq<string>): string {
    if ts == [] then "" else ts[0] + Concat(ts[1..])
  }

  function Chain<E>(rs: seq<Result<string, E>>): Result<string, E> {
    if rs == [] then Ok("")
    else
      var first :- rs[0];
      var rest :- Chain(rs[1..]);
      Ok(first + rest)
  }

  /** The texts of a sequence of results that all succeeded. */
  function Texts<E>(rs: seq<Result<string, E>>): (ts: seq<string>)
    requires forall i :: 0 <= i < |rs| ==> rs[i].Ok?
    ensures |ts| == |rs|
  {
    seq(|rs|, i requires 0 <= i < |rs| => rs[i].value)
  }

  /** A chain succeeds exactly when every part does, and then yields the
      parts' texts concatenated in order. */
  lemma {:induction false} ChainSucceeds<E>(rs: seq<Result<string, E>>)
    ensures Chain(rs).Ok? <==> forall i :: 0 <= i < |rs| ==> rs[i].Ok?
    ensures Chain(rs).Ok? ==> Chain(rs).value == Concat(Texts(rs))
    decreases |rs|
  {
    if rs != [] {
      ChainSucceeds(rs[1..]);
      if Chain(rs).Ok? {
        assert Texts(rs)[1..] == Texts(rs[1..]);
      } else if rs[0].Ok? {
        var k :| 0 <= k < |rs[1..]| && !rs[1..][k].Ok?;
        assert !rs[k + 1].Ok?;
      }
    }
  }

  lemma {:induction false} ChainStopsAt<E>(rs: seq<Result<string, E>>, k: nat, e: E)
    requires k < |rs| && rs[k] == Err(e)
    requires forall j :: 0 <= j < k ==> rs[j].Ok?
    ensures Chain(rs) == Err(e)
    decreases k
  {
    if k > 0 {
      assert rs[1..][k - 1] == Err(e);
      assert forall j :: 0 <= j < k - 1 ==> rs[1..][j].Ok? by {
        forall j | 0 <= j < k - 1 ensures rs[1..][j].Ok? {
          assert rs[1..][j] == rs[j + 1];
        }
      }
      ChainStopsAt(rs[1..], k - 1, e);
    }
  }

  /** A chain fails with `e` exactly when some part fails with `e` and every
      part before it succeeded. */
  lemma {:induction false} ChainFailsAtFirstError<E>(rs: seq<Result<string, E>>, e: E)
    ensures Chain(rs) == Err(e) <==>
      exists k :: 0 <= k < |rs| && rs[k] == Err(e) && forall j :: 0 <= j < k ==> rs[j].Ok?
    decreases |rs|
  {
    if rs != [] {
      ChainFailsAtFirstError(rs[1..], e);
      if Chain(rs) == Err(e) {
        if rs[0].Ok? {
          var k :| 0 <= k < |rs[1..]| && rs[1..][k] == Err(e) && forall j :: 0 <= j < k ==> rs[1..][j].Ok?;
          assert rs[k + 1] == Err(e);
          assert forall j :: 0 <= j < k + 1 ==> rs[j].Ok? by {
            forall j | 0 <= j < k + 1 ensures rs[j].Ok? {
              if j > 0 { assert rs[j] == rs[1..][j - 1]; }
            }
          }
        } else {
          assert rs[0] == Err(e);
        }
      }
      if exists k :: 0 <= k < |rs| && rs[k] == Err(e) && forall j :: 0 <= j < k ==> rs[j].Ok? {
        var k :| 0 <= k < |rs| && rs[k] == Err(e) && forall j :: 0 <= j < k ==> rs[j].Ok?;
        ChainStopsAt(rs, k, e);
      }
    }
  }
}
