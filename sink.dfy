/**
 * The index writer the pipeline talks to, as a mock that records what it is asked to do.
 * Whether each `add_document` and each `commit` call succeeds is decided by an oracle
 * sequence given when the writer is made (a call beyond the end of its oracle succeeds).
 */
module Sink {
  import opened Records

  /** Whether the `k`-th call (counting from 0) succeeds under `oracle`. */
  function Succeeds(oracle: seq<bool>, k: nat): bool {
    k >= |oracle| || oracle[k]
  }

  /**
   * The number of documents made durable by the commits logged in `log` (each entry is the
   * number of documents added when that commit was issued): the count of the last commit
   * that succeeded, or 0 when none did.
   */
  function Durable(log: seq<nat>, oracle: seq<bool>): nat {
    if log == [] then 0
    else if Succeeds(oracle, |log| - 1) then log[|log| - 1]
    else Durable(log[..|log| - 1], oracle)
  }

  /** One more commit: durable moves to its count if it succeeds, and stays put if it fails. */
  lemma DurableSnoc(log: seq<nat>, n: nat, oracle: seq<bool>)
    ensures Durable(log + [n], oracle) == if Succeeds(oracle, |log|) then n else Durable(log, oracle)
  {
    assert (log + [n])[..|log|] == log;
  }

  /**
   * What `Durable` means: either no commit succeeded and nothing is durable, or some commit
   * succeeded, every later one failed, and its count is what is durable.
   */
  lemma {:induction false} DurableIsLastSuccess(log: seq<nat>, oracle: seq<bool>)
    ensures (Durable(log, oracle) == 0 && forall k :: 0 <= k < |log| ==> !Succeeds(oracle, k))
         || (exists k :: 0 <= k < |log| && Succeeds(oracle, k) && log[k] == Durable(log, oracle)
               && forall j :: k < j < |log| ==> !Succeeds(oracle, j))
  {
    if log != [] && !Succeeds(oracle, |log| - 1) {
      var init := log[..|log| - 1];
      DurableIsLastSuccess(init, oracle);
      if Durable(init, oracle) == 0 && forall k :: 0 <= k < |init| ==> !Succeeds(oracle, k) {
      } else {
        var k :| 0 <= k < |init| && Succeeds(oracle, k) && init[k] == Durable(init, oracle)
                 && forall j :: k < j < |init| ==> !Succeeds(oracle, j);
        assert log[k] == init[k];
      }
    }
  }

  /**
   * The tantivy `IndexWriter`, reduced to what the pipeline observes: the documents added
   * so far, the commit calls issued (each logged with the number of documents added at that
   * moment) and how many documents the last successful commit made durable.
   */
  class IndexWriter {
    var added: seq<Document>
    var addCalls: nat
    var commitLog: seq<nat>
    var durable: nat
    const addOracle: seq<bool>
    const commitOracle: seq<bool>

    ghost predicate Valid()
      reads this
    {
      |added| <= addCalls
      && durable == Durable(commitLog, commitOracle)
      && (forall k :: 0 <= k < |commitLog| ==> commitLog[k] <= |added|)
    }

    /** A fresh writer over an empty index. */
    constructor (addOracle: seq<bool>, commitOracle: seq<bool>)
      ensures Valid()
      ensures added == [] && addCalls == 0 && commitLog == [] && durable == 0
      ensures this.addOracle == addOracle && this.commitOracle == commitOracle
    {
      added := [];
      addCalls := 0;
      commitLog := [];
      durable := 0;
      this.addOracle := addOracle;
      this.commitOracle := commitOracle;
    }

    /** `add_document`: queues `d`, unless the call fails. */
    method AddDocument(d: Document) returns (ok: bool)
      requires Valid()
      modifies this
      ensures Valid()
      ensures ok == Succeeds(addOracle, old(addCalls))
      ensures addCalls == old(addCalls) + 1
      ensures added == if ok then old(added) + [d] else old(added)
      ensures commitLog == old(commitLog) && durable == old(durable)
    {
      ok := Succeeds(addOracle, addCalls);
      addCalls := addCalls + 1;
      if ok {
        added := added + [d];
      }
    }

    /** `commit`: makes every document added so far durable, unless the call fails. */
    method Commit() returns (ok: bool)
      requires Valid()
      modifies this
      ensures Valid()
      ensures ok == Succeeds(commitOracle, |old(commitLog)|)
      ensures commitLog == old(commitLog) + [|added|]
      ensures durable == if ok then |added| else old(durable)
      ensures added == old(added) && addCalls == old(addCalls)
    {
      ok := Succeeds(commitOracle, |commitLog|);
      DurableSnoc(commitLog, |added|, commitOracle);
      commitLog := commitLog + [|added|];
      if ok {
        durable := |added|;
      }
    }
  }
}
