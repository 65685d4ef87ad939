/** What one zxrio_txn returns, as a function of what the transport ran into
    (for a request that passed local validation). */
module Exchange {
  import opened Wire
  import opened Transport

  /** The reply zxrio_txn accepts: a whole, well-framed message whose op is
      ZXRIO_STATUS, validated with the kernel's handle count. */
  predicate ReplyAccepted(d: CallOutcome)
  {
    d.Replied? &&
    IsMessageReplyValid(d.reply.(hcount := d.n), ZXRIO_HDR_SZ + |d.reply.data|) &&
    ZxrioOp(d.reply.op) == ZXRIO_STATUS
  }

  /** The status zxrio_txn returns. */
  function TxnStatus(o: CallOutcome): (r: int)
    // a transport error is passed on as it is, whichever phase failed
    ensures Delivered(o).WriteFailed? ==> r == Delivered(o).ws
    ensures Delivered(o).ReadFailed? ==> r == Delivered(o).rs
    // a reply with bad framing or a wrong op is an I/O error
    ensures Delivered(o).Runt? ==> r == ZX_ERR_IO
    ensures Delivered(o).Replied? && !ReplyAccepted(Delivered(o)) ==> r == ZX_ERR_IO
    // otherwise the reply's own status is the result
    ensures ReplyAccepted(Delivered(o)) ==> r == Delivered(o).reply.arg
    // success always means an accepted reply with a non-negative status
    ensures r >= 0 ==> ReplyAccepted(Delivered(o)) && Delivered(o).reply.arg == r
    ensures r >= 0 ==> Delivered(o).reply.datalen == |Delivered(o).reply.data|
  {
    var d := Delivered(o);
    match d
    case WriteFailed(ws) => ws
    case ReadFailed(rs) => rs
    case Runt(_, _) => ZX_ERR_IO
    case Replied(m, _) => if ReplyAccepted(d) then m.arg else ZX_ERR_IO
  }

  /** The reply message an accepted exchange leaves (before its handles). */
  function ReplyOf(o: CallOutcome): Msg
    requires TxnStatus(o) >= 0
  {
    Delivered(o).reply
  }
}
