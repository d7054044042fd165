/** What one request does to its measurement series. */
module Series {
  import opened Wrappers

  /**
   One request and what came of it: whether its envelope could be filled, whether the transport
   reported an error, the message id it was sent under, and the id in the reply's envelope, if any.
   */
  datatype Exchange = Exchange(filled: bool, failed: bool, sentId: string, repliedId: Option<string>, serverTime: int)

  /** The reply answers this very request. */
  predicate Matched(x: Exchange) {
    x.filled && !x.failed && x.repliedId == Some(x.sentId)
  }

  /** `kind` counted once more. */
  function Once(kinds: map<string, nat>, kind: string): map<string, nat> {
    kinds[kind := 1 + if kind in kinds then kinds[kind] else 0]
  }

  class Series {
    var count: nat
    var errors: nat
    var kinds: map<string, nat>
    var served: nat
    var late: nat

    constructor ()
      ensures count == errors == served == late == 0 && kinds == map[]
    {
      count, errors, kinds, served, late := 0, 0, map[], 0, 0;
    }

    function Sent(): nat
      reads this
    {
      count + errors
    }

    method Record(kind: string)
      modifies this`count, this`errors, this`kinds
      ensures Sent() == old(Sent()) + 1
      ensures count == old(count) + if kind == "" then 1 else 0
      ensures kinds == if kind == "" then old(kinds) else Once(old(kinds), kind)
    {
      if kind != "" {
        errors := errors + 1;
        kinds := kinds[kind := (if kind in kinds then kinds[kind] else 0) + 1];
      } else {
        count := count + 1;
      }
    }

    /**
     Every request folds exactly one outcome into the series: under "encode", "transport" or
     "corrupt", whichever comes first, or as a success.
     */
    method DoOn(x: Exchange)
      modifies this
      ensures Sent() == old(Sent()) + 1 && late == old(late)
      ensures count == old(count) + if Matched(x) then 1 else 0
      ensures served == old(served) + if Matched(x) && x.serverTime > 0 then 1 else 0
      ensures kinds ==
        if !x.filled then Once(old(kinds), "encode")
        else if x.failed then Once(old(kinds), "transport")
        else if x.repliedId != Some(x.sentId) then Once(old(kinds), "corrupt")
        else old(kinds)
    {
      if !x.filled {
        Record("encode");
        return;
      }
      if x.failed {
        Record("transport");
        return;
      }
      if x.repliedId.None? || x.repliedId.value != x.sentId {
        Record("corrupt");
        return;
      }
      if x.serverTime > 0 {
        served := served + 1;
      }
      Record("");
    }
  }

  /** Counting a kind moves that counter by one and no other. */
  lemma OnceCounts(kinds: map<string, nat>, kind: string)
    ensures var more := Once(kinds, kind);
      && kind in more && more[kind] == 1 + (if kind in kinds then kinds[kind] else 0)
      && forall k :: k != kind ==> (k in more <==> k in kinds) && (k in kinds ==> more[k] == kinds[k])
  {
  }
}
