/** The part of the driver the access-point API calls into: allocation of a
    message record and submission to the producer mailbox. The worker that
    drains the mailbox is not part of this model; the mailbox is the
    sequence of submissions in the order they were made. */
module EspDriver {
  import opened EspTypes
  import opened EspMsg

  /** A mailbox entry: the record object and its timeout. */
  datatype Submission = Submission(msg: Msg, timeout: nat)

  function MsgsOf(q: seq<Submission>): set<object>
  {
    set s | s in q :: s.msg
  }

  /** The values of the records in a mailbox, in submission order. */
  function RequestsOf(q: seq<Submission>): (rs: seq<Request>)
    reads MsgsOf(q)
    ensures |rs| == |q|
  {
    if q == [] then []
    else
      assert MsgsOf(q[..|q| - 1]) <= MsgsOf(q);
      RequestsOf(q[..|q| - 1]) + [Request(q[|q| - 1].msg.Value(), q[|q| - 1].timeout)]
  }

  /** The values of the queued records depend on those records alone. */
  twostate lemma {:induction false} RequestsOfUnchanged(q: seq<Submission>)
    requires forall k | 0 <= k < |q| :: unchanged(q[k].msg)
    ensures RequestsOf(q) == old(RequestsOf(q))
  {
    if q != [] {
      RequestsOfUnchanged(q[..|q| - 1]);
    }
  }

  lemma RequestsOfSnoc(q: seq<Submission>, s: Submission)
    ensures RequestsOf(q + [s]) == RequestsOf(q) + [Request(s.msg.Value(), s.timeout)]
  {
    assert (q + [s])[..|q|] == q;
  }

  class Driver {
    /** The producer mailbox, oldest submission first. */
    var mbox: seq<Submission>
    /** The number of message records allocated so far. */
    var records: nat

    /** The mailbox as values. */
    function Requests(): seq<Request>
      reads this`mbox, MsgsOf(mbox)
    {
      RequestsOf(mbox)
    }

    constructor ()
      ensures mbox == [] && records == 0
    {
      mbox := [];
      records := 0;
    }

    /** ESP_MSG_VAR_ALLOC: a fresh, zero-filled record. */
    method AllocMsg(blocking: bv32) returns (m: Msg)
      modifies this`records
      ensures fresh(m) && m.Value() == Blank(blocking)
      ensures records == old(records) + 1
    {
      m := new Msg(blocking);
      records := records + 1;
    }

    /** espi_send_msg_to_producer_mbox: queues the record with its timeout.
        The status it reports is decided by the dispatcher and enters the
        model as `reply`. */
    method SendToProducerMbox(m: Msg, timeout: nat, reply: Espr) returns (r: Espr)
      modifies this`mbox
      ensures mbox == old(mbox) + [Submission(m, timeout)]
      ensures r == reply
    {
      mbox := mbox + [Submission(m, timeout)];
      r := reply;
    }
  }
}
