/** The operations of the auction service (class `Auction` of src/auction.ts)
    as pure steps on the mirror store. Every ledger interaction is an input:
    the contract address the client resolves for the auction, whether
    `provider.call` reverts, the boolean `withdraw` decodes to, the end time
    the contract reports, the current time and the hash of the submitted
    end transaction. A step returns the operation's outcome and the new store. */
module Coordinator {
  import opened Errors
  import opened Transactions
  import opened Mirror

  datatype Step<T> = Step(result: Result<T>, store: Store)

  /** What `status` reports: end time in milliseconds, highest bid in wei, ended flag. */
  datatype AuctionStatus = AuctionStatus(endTime: int, highestBid: nat, ended: bool)

  /** The private `contract(id)` lookup: the mirror row, or 404. */
  function FindAuction(s: Store, id: nat): (r: Result<AuctionRow>)
    ensures r.Ok? <==> id in s.auctions
    ensures r.Ok? ==> r.value == s.auctions[id]
    ensures r.Err? ==> r.error == ContractNotFound
  {
    if id in s.auctions then Ok(s.auctions[id]) else Err(ContractNotFound)
  }

  /** The largest time, in milliseconds from the epoch, a JavaScript `Date`
      holds; the ECMAScript `TimeClip` operation makes any later time an
      invalid date. */
  const MaxDateMs: nat := 8_640_000_000_000_000

  /** `deploy`: once the contract is deployed at `address` and reports its end
      time in seconds, insert its mirror row and return the new id. An end
      time past the `Date` range makes `new Date(end * 1000)` invalid, and the
      database client then refuses the row: the contract stays deployed, but
      nothing is recorded. */
  function DeployStep(s: Store, address: string, endSeconds: nat): (st: Step<nat>)
    ensures MaxDateMs < endSeconds * 1000 ==> st == Step(Err(StoreError), s)
    ensures st.result.Ok? <==> endSeconds * 1000 <= MaxDateMs
    ensures st.result.Ok? ==>
              && st.result.value == s.nextAuctionId
              && st.store.bids == s.bids && st.store.nextBidId == s.nextBidId
              && st.store.nextAuctionId == s.nextAuctionId + 1
              && st.store.auctions.Keys == s.auctions.Keys + {s.nextAuctionId}
              && st.store.auctions[s.nextAuctionId] == AuctionRow(address, endSeconds * 1000, false, 0)
    ensures Valid(s) ==> forall a :: a in s.auctions ==> a in st.store.auctions && st.store.auctions[a] == s.auctions[a]
  {
    var id := s.nextAuctionId;
    if MaxDateMs < endSeconds * 1000 then Step(Err(StoreError), s)
    else
      Step(Ok(id), s.(auctions := s.auctions[id := AuctionRow(address, endSeconds * 1000, false, 0)],
                      nextAuctionId := id + 1))
  }

  /** `status`: the end time and highest bid come from the contract, `ended`
      from the mirror row. `readFails` says whether one of the two contract
      reads throws. */
  function StatusOf(s: Store, id: nat, readFails: bool, chainEndSeconds: nat, chainHighestBid: nat): (r: Result<AuctionStatus>)
    ensures id !in s.auctions ==> r == Err(ContractNotFound)
    ensures id in s.auctions && readFails ==> r == Err(LedgerError)
    ensures r.Ok? <==> id in s.auctions && !readFails
    ensures r.Ok? ==> r.value.ended == s.auctions[id].ended
    ensures r.Ok? ==> r.value.endTime == chainEndSeconds * 1000 && r.value.highestBid == chainHighestBid
  {
    match FindAuction(s, id)
    case Err(e) => Err(e)
    case Ok(data) =>
      if readFails then Err(LedgerError)
      else Ok(AuctionStatus(chainEndSeconds * 1000, chainHighestBid, data.ended))
  }

  /** `bid`: the checks in the order the source makes them, then the ledger
      dry run, then the bid row and the new highest bid in one transaction. */
  function BidStep(s: Store, id: nat, userId: nat, tx: Tx, contractAddress: string, callReverts: bool): (st: Step<()>)
    ensures id !in s.auctions ==> st == Step(Err(ContractNotFound), s)
    ensures id in s.auctions && !BidShapeOk(tx, contractAddress) ==> st == Step(Err(InvalidFormat), s)
    ensures id in s.auctions && BidShapeOk(tx, contractAddress) && tx.value <= s.auctions[id].highestBid ==>
              st == Step(Err(ValueTooLow), s)
    ensures id in s.auctions && BidShapeOk(tx, contractAddress) && s.auctions[id].highestBid < tx.value && callReverts ==>
              st == Step(Err(LedgerError), s)
    ensures st.result.Err? ==> st.store == s
    ensures st.result.Ok? <==>
              id in s.auctions && BidShapeOk(tx, contractAddress) && s.auctions[id].highestBid < tx.value && !callReverts
    ensures st.result.Ok? ==>
              && st.store.bids == s.bids + [BidRow(s.nextBidId, id, userId, tx.from, tx.value, false)]
              && st.store.auctions.Keys == s.auctions.Keys
              && st.store.auctions[id] == s.auctions[id].(highestBid := tx.value)
              && s.auctions[id].highestBid < st.store.auctions[id].highestBid
              && (forall a :: a in s.auctions && a != id ==> st.store.auctions[a] == s.auctions[a])
              && st.store.nextBidId == s.nextBidId + 1 && st.store.nextAuctionId == s.nextAuctionId
  {
    match FindAuction(s, id)
    case Err(e) => Step(Err(e), s)
    case Ok(data) =>
      if !BidShapeOk(tx, contractAddress) then Step(Err(InvalidFormat), s)
      else if tx.value <= data.highestBid then Step(Err(ValueTooLow), s)
      else if callReverts then Step(Err(LedgerError), s)
      else
        var row := BidRow(s.nextBidId, id, userId, tx.from, tx.value, false);
        Step(Ok(()), s.(auctions := s.auctions[id := data.(highestBid := tx.value)],
                        bids := s.bids + [row],
                        nextBidId := s.nextBidId + 1))
  }

  /** The local checks `rawWithdraw` makes before it builds a template:
      the bid exists on that auction, is not returned, and the auction exists. */
  function RawWithdrawCheck(s: Store, id: nat, bidId: nat): (r: Result<()>)
    ensures FindBid(s.bids, bidId, id).None? ==> r == Err(BidNotFound)
    ensures FindBid(s.bids, bidId, id).Some? && s.bids[FindBid(s.bids, bidId, id).value].returned ==>
              r == Err(AlreadyWithdrawn)
    ensures var f := FindBid(s.bids, bidId, id);
            f.Some? && !s.bids[f.value].returned && id !in s.auctions ==> r == Err(ContractNotFound)
    ensures r.Ok? <==>
              FindBid(s.bids, bidId, id).Some? && !s.bids[FindBid(s.bids, bidId, id).value].returned && id in s.auctions
  {
    match FindBid(s.bids, bidId, id)
    case None => Err(BidNotFound)
    case Some(i) =>
      if s.bids[i].returned then Err(AlreadyWithdrawn)
      else match FindAuction(s, id)
        case Err(e) => Err(e)
        case Ok(_) => Ok(())
  }

  /** `withdraw`: look the bid up (404, 409), then the auction (404), check the
      transaction's shape (400), then its sender and the caller (403), then
      dry-run it and record the decoded outcome as the bid's `returned`. */
  function WithdrawStep(s: Store, id: nat, bidId: nat, userId: nat, tx: Tx, contractAddress: string,
                        callReverts: bool, outcome: bool): (st: Step<bool>)
    ensures FindBid(s.bids, bidId, id).None? ==> st == Step(Err(BidNotFound), s)
    ensures var f := FindBid(s.bids, bidId, id);
            f.Some? && s.bids[f.value].returned ==> st == Step(Err(AlreadyWithdrawn), s)
    ensures var f := FindBid(s.bids, bidId, id);
            f.Some? && !s.bids[f.value].returned && id !in s.auctions ==> st == Step(Err(ContractNotFound), s)
    ensures var f := FindBid(s.bids, bidId, id);
            f.Some? && !s.bids[f.value].returned && id in s.auctions && !WithdrawShapeOk(tx, contractAddress) ==>
              st == Step(Err(InvalidFormat), s)
    ensures var f := FindBid(s.bids, bidId, id);
            f.Some? && !s.bids[f.value].returned && id in s.auctions && WithdrawShapeOk(tx, contractAddress) &&
            (tx.from != s.bids[f.value].address || s.bids[f.value].ownerId != userId) ==>
              st == Step(Err(NotBidOwner), s)
    ensures var f := FindBid(s.bids, bidId, id);
            f.Some? && !s.bids[f.value].returned && id in s.auctions && WithdrawShapeOk(tx, contractAddress) &&
            tx.from == s.bids[f.value].address && s.bids[f.value].ownerId == userId && callReverts ==>
              st == Step(Err(LedgerError), s)
    ensures st.result.Err? ==> st.store == s
    ensures var f := FindBid(s.bids, bidId, id);
            st.result.Ok? <==>
              && f.Some? && !s.bids[f.value].returned && id in s.auctions && WithdrawShapeOk(tx, contractAddress)
              && tx.from == s.bids[f.value].address && s.bids[f.value].ownerId == userId && !callReverts
    ensures var f := FindBid(s.bids, bidId, id);
            st.result.Ok? ==>
              && st.result.value == outcome
              && st.store == s.(bids := SetReturned(s.bids, f.value, outcome))
    ensures st.result == Ok(false) ==> st.store == s
  {
    match FindBid(s.bids, bidId, id)
    case None => Step(Err(BidNotFound), s)
    case Some(i) =>
      var bid := s.bids[i];
      if bid.returned then Step(Err(AlreadyWithdrawn), s)
      else match FindAuction(s, id)
        case Err(e) => Step(Err(e), s)
        case Ok(_) =>
          if !WithdrawShapeOk(tx, contractAddress) then Step(Err(InvalidFormat), s)
          else if tx.from != bid.address || bid.ownerId != userId then Step(Err(NotBidOwner), s)
          else if callReverts then Step(Err(LedgerError), s)
          else
            assert !outcome ==> SetReturned(s.bids, i, outcome) == s.bids;
            Step(Ok(outcome), s.(bids := SetReturned(s.bids, i, outcome)))
  }

  /** `end`: refuse before the end time (422) and when the mirror already says
      ended (422); otherwise submit `auctionEnd` and return its hash. The
      source's `ended := true` update is neither awaited nor chained, so
      whether it lands is an input, `flagWritten`, and the contract allows both. */
  function EndStep(s: Store, id: nat, now: int, callReverts: bool, txHash: string, flagWritten: bool): (st: Step<string>)
    ensures id !in s.auctions ==> st == Step(Err(ContractNotFound), s)
    ensures id in s.auctions && now < s.auctions[id].endTime ==> st == Step(Err(NotYetEndable), s)
    ensures id in s.auctions && s.auctions[id].endTime <= now && s.auctions[id].ended ==>
              st == Step(Err(AlreadyEnded), s)
    ensures id in s.auctions && s.auctions[id].endTime <= now && !s.auctions[id].ended && callReverts ==>
              st == Step(Err(LedgerError), s)
    ensures st.result.Err? ==> st.store == s
    ensures st.result.Ok? <==>
              id in s.auctions && s.auctions[id].endTime <= now && !s.auctions[id].ended && !callReverts
    ensures st.result.Ok? ==>
              && st.result.value == txHash
              && st.store.bids == s.bids
              && st.store.nextAuctionId == s.nextAuctionId && st.store.nextBidId == s.nextBidId
              && st.store.auctions.Keys == s.auctions.Keys
              && (st.store.auctions[id] == s.auctions[id] || st.store.auctions[id] == s.auctions[id].(ended := true))
              && (forall a :: a in s.auctions && a != id ==> st.store.auctions[a] == s.auctions[a])
  {
    match FindAuction(s, id)
    case Err(e) => Step(Err(e), s)
    case Ok(data) =>
      if now < data.endTime then Step(Err(NotYetEndable), s)
      else if data.ended then Step(Err(AlreadyEnded), s)
      else if callReverts then Step(Err(LedgerError), s)
      else if flagWritten then Step(Ok(txHash), s.(auctions := s.auctions[id := data.(ended := true)]))
      else Step(Ok(txHash), s)
  }

  // ---------------------------------------------------------------------------
  // The mirror invariant is kept by every operation.

  lemma DeployKeepsValid(s: Store, address: string, endSeconds: nat)
    requires Valid(s)
    ensures Valid(DeployStep(s, address, endSeconds).store)
  {
    var t := DeployStep(s, address, endSeconds).store;
    var id := s.nextAuctionId;
    forall i | 0 <= i < |s.bids| ensures s.bids[i].auctionId != id {
      assert RowOk(s, s.bids[i]);
    }
    LastBidAmountAbsent(s.bids, id);
    forall i | 0 <= i < |t.bids| ensures RowOk(t, t.bids[i]) {
      assert RowOk(s, s.bids[i]);
    }
  }

  lemma BidKeepsValid(s: Store, id: nat, userId: nat, tx: Tx, contractAddress: string, callReverts: bool)
    requires Valid(s)
    ensures Valid(BidStep(s, id, userId, tx, contractAddress, callReverts).store)
  {
    var st := BidStep(s, id, userId, tx, contractAddress, callReverts);
    if st.result.Ok? {
      var t := st.store;
      var row := BidRow(s.nextBidId, id, userId, tx.from, tx.value, false);
      assert t.bids == s.bids + [row];
      forall a | a in t.auctions ensures t.auctions[a].highestBid == LastBidAmount(t.bids, a) {
        LastBidAmountAppend(s.bids, row, a);
      }
      forall i | 0 <= i < |t.bids| ensures RowOk(t, t.bids[i]) {
        if i < |s.bids| {
          assert t.bids[i] == s.bids[i] && RowOk(s, s.bids[i]);
        }
      }
      forall i, j | 0 <= i < j < |t.bids| && t.bids[i].auctionId == t.bids[j].auctionId
        ensures t.bids[i].amount < t.bids[j].amount
      {
        assert RowOk(s, s.bids[i]);
      }
      forall i, j | 0 <= i < j < |t.bids| ensures t.bids[i].id < t.bids[j].id {
        assert RowOk(s, s.bids[i]);
      }
    }
  }

  lemma WithdrawKeepsValid(s: Store, id: nat, bidId: nat, userId: nat, tx: Tx, contractAddress: string,
                           callReverts: bool, outcome: bool)
    requires Valid(s)
    ensures Valid(WithdrawStep(s, id, bidId, userId, tx, contractAddress, callReverts, outcome).store)
  {
    var st := WithdrawStep(s, id, bidId, userId, tx, contractAddress, callReverts, outcome);
    if st.result.Ok? {
      var t := st.store;
      assert SameKeys(s.bids, t.bids);
      forall a | a in t.auctions ensures t.auctions[a].highestBid == LastBidAmount(t.bids, a) {
        LastBidAmountSameKeys(s.bids, t.bids, a);
      }
      forall i | 0 <= i < |t.bids| ensures RowOk(t, t.bids[i]) {
        assert SameRow(s.bids[i], t.bids[i]) && RowOk(s, s.bids[i]);
      }
      forall i, j | 0 <= i < j < |t.bids| ensures t.bids[i].id < t.bids[j].id {
        assert SameRow(s.bids[i], t.bids[i]) && SameRow(s.bids[j], t.bids[j]);
      }
      forall i, j | 0 <= i < j < |t.bids| && t.bids[i].auctionId == t.bids[j].auctionId
        ensures t.bids[i].amount < t.bids[j].amount
      {
        assert SameRow(s.bids[i], t.bids[i]) && SameRow(s.bids[j], t.bids[j]);
      }
    }
  }

  lemma EndKeepsValid(s: Store, id: nat, now: int, callReverts: bool, txHash: string, flagWritten: bool)
    requires Valid(s)
    ensures Valid(EndStep(s, id, now, callReverts, txHash, flagWritten).store)
  {
    var t := EndStep(s, id, now, callReverts, txHash, flagWritten).store;
    forall i | 0 <= i < |t.bids| ensures RowOk(t, t.bids[i]) {
      assert RowOk(s, s.bids[i]);
    }
  }

  // ---------------------------------------------------------------------------
  // Properties that relate several calls.

  /** A second withdrawal of a bid whose first withdrawal came back `true`
      fails with 409 and changes nothing, whatever the second transaction
      and the ledger say. */
  lemma {:induction false} WithdrawTwiceRejected(s: Store, id: nat, bidId: nat, userId: nat, tx: Tx, contractAddress: string,
                                                 userId': nat, tx': Tx, contractAddress': string,
                                                 callReverts': bool, outcome': bool)
    requires WithdrawStep(s, id, bidId, userId, tx, contractAddress, false, true).result == Ok(true)
    ensures var t := WithdrawStep(s, id, bidId, userId, tx, contractAddress, false, true).store;
            WithdrawStep(t, id, bidId, userId', tx', contractAddress', callReverts', outcome') ==
              Step(Err(AlreadyWithdrawn), t)
  {
    var i := FindBid(s.bids, bidId, id).value;
    var t := WithdrawStep(s, id, bidId, userId, tx, contractAddress, false, true).store;
    FindBidSameKeys(s.bids, t.bids, bidId, id);
    assert t.bids[i].returned;
  }

  /** Local rejections do not depend on the ledger: whenever `withdraw` fails
      with an `ApiError`, it fails the same way whatever the dry run would
      have answered. */
  lemma WithdrawRejectionPrecedesLedger(s: Store, id: nat, bidId: nat, userId: nat, tx: Tx, contractAddress: string,
                                        callReverts: bool, outcome: bool, callReverts': bool, outcome': bool)
    requires WithdrawStep(s, id, bidId, userId, tx, contractAddress, callReverts, outcome).result.Err?
    requires WithdrawStep(s, id, bidId, userId, tx, contractAddress, callReverts, outcome).result.error.ApiError?
    ensures WithdrawStep(s, id, bidId, userId, tx, contractAddress, callReverts', outcome') ==
            WithdrawStep(s, id, bidId, userId, tx, contractAddress, callReverts, outcome)
  {
  }

  /** The same for `bid`. */
  lemma BidRejectionPrecedesLedger(s: Store, id: nat, userId: nat, tx: Tx, contractAddress: string,
                                   callReverts: bool, callReverts': bool)
    requires BidStep(s, id, userId, tx, contractAddress, callReverts).result.Err?
    requires BidStep(s, id, userId, tx, contractAddress, callReverts).result.error.ApiError?
    ensures BidStep(s, id, userId, tx, contractAddress, callReverts') ==
            BidStep(s, id, userId, tx, contractAddress, callReverts)
  {
  }

  /** And for `end`. */
  lemma EndRejectionPrecedesLedger(s: Store, id: nat, now: int, callReverts: bool, txHash: string, flagWritten: bool,
                                   callReverts': bool, txHash': string, flagWritten': bool)
    requires EndStep(s, id, now, callReverts, txHash, flagWritten).result.Err?
    requires EndStep(s, id, now, callReverts, txHash, flagWritten).result.error.ApiError?
    ensures EndStep(s, id, now, callReverts', txHash', flagWritten') ==
            EndStep(s, id, now, callReverts, txHash, flagWritten)
  {
  }

  /** `rawWithdraw`'s local checks are exactly the first checks of
      `withdraw`: when they fail, `withdraw` fails with the same error
      whatever the transaction and the ledger, and when they pass `withdraw`
      gets past its lookups. */
  lemma RawWithdrawAgreesWithWithdraw(s: Store, id: nat, bidId: nat, userId: nat, tx: Tx, contractAddress: string,
                                      callReverts: bool, outcome: bool)
    ensures RawWithdrawCheck(s, id, bidId).Err? ==>
              WithdrawStep(s, id, bidId, userId, tx, contractAddress, callReverts, outcome) ==
              Step(Err(RawWithdrawCheck(s, id, bidId).error), s)
    ensures RawWithdrawCheck(s, id, bidId).Ok? ==>
              var r := WithdrawStep(s, id, bidId, userId, tx, contractAddress, callReverts, outcome).result;
              r.Err? ==> r.error !in {BidNotFound, AlreadyWithdrawn, ContractNotFound}
  {
  }

  /** In a valid store a withdrawal on an auction that does not exist fails at
      the bid lookup, with 404. */
  lemma WithdrawOnUnknownAuction(s: Store, id: nat, bidId: nat, userId: nat, tx: Tx, contractAddress: string,
                                 callReverts: bool, outcome: bool)
    requires Valid(s) && id !in s.auctions
    ensures WithdrawStep(s, id, bidId, userId, tx, contractAddress, callReverts, outcome) == Step(Err(BidNotFound), s)
    ensures RawWithdrawCheck(s, id, bidId) == Err(BidNotFound)
  {
  }

  /** An accepted bid joins the end of its auction's history, and the history
      of every other auction stays as it was. */
  lemma HistoryAfterBid(s: Store, id: nat, userId: nat, tx: Tx, contractAddress: string, a: nat)
    requires BidStep(s, id, userId, tx, contractAddress, false).result.Ok?
    ensures var t := BidStep(s, id, userId, tx, contractAddress, false).store;
            History(t.bids, a) == History(s.bids, a) + (if a == id then [BidView(tx.from, tx.value)] else [])
  {
    var row := BidRow(s.nextBidId, id, userId, tx.from, tx.value, false);
    HistoryAppend(s.bids, [row], a);
  }

  /** What an accepted withdrawal found and wrote. */
  lemma WithdrawAccepted(s: Store, id: nat, bidId: nat, userId: nat, tx: Tx, contractAddress: string, outcome: bool)
    requires WithdrawStep(s, id, bidId, userId, tx, contractAddress, false, outcome).result.Ok?
    ensures FindBid(s.bids, bidId, id).Some?
    ensures var i := FindBid(s.bids, bidId, id).value;
            && Listed(s.bids[i], id)
            && WithdrawStep(s, id, bidId, userId, tx, contractAddress, false, outcome).store.bids == SetReturned(s.bids, i, outcome)
  {
  }

  /** A withdrawal that comes back `true` takes exactly that bid out of its
      auction's history; the rows before and after it stay listed in order. */
  lemma HistoryAfterWithdraw(s: Store, id: nat, bidId: nat, userId: nat, tx: Tx, contractAddress: string)
    requires WithdrawStep(s, id, bidId, userId, tx, contractAddress, false, true).result.Ok?
    ensures var i := FindBid(s.bids, bidId, id).value;
            var t := WithdrawStep(s, id, bidId, userId, tx, contractAddress, false, true).store;
            && History(s.bids, id) == History(s.bids[..i], id) + [View(s.bids[i])] + History(s.bids[i + 1..], id)
            && History(t.bids, id) == History(s.bids[..i], id) + History(s.bids[i + 1..], id)
  {
    var i := FindBid(s.bids, bidId, id).value;
    WithdrawAccepted(s, id, bidId, userId, tx, contractAddress, true);
    HistorySplit(s.bids, i, id);
    HistoryWithoutReturned(s.bids, i, id);
  }

  /** A freshly deployed auction: its id was not in use, it is open, it has
      no bids, and its status shows `ended == false`. */
  lemma DeployedAuctionIsFresh(s: Store, address: string, endSeconds: nat, chainHighestBid: nat)
    requires Valid(s)
    ensures var st := DeployStep(s, address, endSeconds);
            st.result.Ok? ==>
            && st.result.value !in s.auctions
            && History(st.store.bids, st.result.value) == []
            && StatusOf(st.store, st.result.value, false, endSeconds, chainHighestBid) ==
               Ok(AuctionStatus(endSeconds * 1000, chainHighestBid, false))
  {
    var st := DeployStep(s, address, endSeconds);
    DeployKeepsValid(s, address, endSeconds);
    HistoryOfUnknownAuction(s, s.nextAuctionId);
  }

  // ---------------------------------------------------------------------------
  // Runs of operations.

  /** One state-changing call, with the ledger's answers it receives. */
  datatype Op =
    | DeployOp(address: string, endSeconds: nat)
    | BidOp(id: nat, userId: nat, tx: Tx, contractAddress: string, callReverts: bool)
    | WithdrawOp(id: nat, bidId: nat, userId: nat, tx: Tx, contractAddress: string, callReverts: bool, outcome: bool)
    | EndOp(id: nat, now: int, callReverts: bool, txHash: string, flagWritten: bool)

  function Apply(s: Store, op: Op): Store {
    match op
    case DeployOp(address, endSeconds) => DeployStep(s, address, endSeconds).store
    case BidOp(id, userId, tx, addr, reverts) => BidStep(s, id, userId, tx, addr, reverts).store
    case WithdrawOp(id, bidId, userId, tx, addr, reverts, outcome) =>
      WithdrawStep(s, id, bidId, userId, tx, addr, reverts, outcome).store
    case EndOp(id, now, reverts, txHash, flagWritten) => EndStep(s, id, now, reverts, txHash, flagWritten).store
  }

  function Run(s: Store, ops: seq<Op>): Store
    decreases |ops|
  {
    if ops == [] then s else Run(Apply(s, ops[0]), ops[1..])
  }

  /** How an auction row may change: address and end time never, `ended`
      only from false to true, `highestBid` never down. */
  predicate AuctionGrows(r: AuctionRow, r': AuctionRow) {
    r'.address == r.address && r'.endTime == r.endTime && (r.ended ==> r'.ended) && r.highestBid <= r'.highestBid
  }

  /** How a bid row may change: only `returned`, and only from false to true. */
  predicate BidGrows(b: BidRow, b': BidRow) {
    SameRow(b, b') && (b.returned ==> b'.returned)
  }

  /** The store `t` is a later state of `s`: no auction or bid is deleted
      and every row changed only as allowed. */
  ghost predicate Grows(s: Store, t: Store) {
    && (forall a :: a in s.auctions ==> a in t.auctions && AuctionGrows(s.auctions[a], t.auctions[a]))
    && |s.bids| <= |t.bids|
    && (forall i :: 0 <= i < |s.bids| ==> BidGrows(s.bids[i], t.bids[i]))
  }

  lemma ApplyKeepsValid(s: Store, op: Op)
    requires Valid(s)
    ensures Valid(Apply(s, op))
  {
    match op
    case DeployOp(address, endSeconds) => DeployKeepsValid(s, address, endSeconds);
    case BidOp(id, userId, tx, addr, reverts) => BidKeepsValid(s, id, userId, tx, addr, reverts);
    case WithdrawOp(id, bidId, userId, tx, addr, reverts, outcome) =>
      WithdrawKeepsValid(s, id, bidId, userId, tx, addr, reverts, outcome);
    case EndOp(id, now, reverts, txHash, flagWritten) => EndKeepsValid(s, id, now, reverts, txHash, flagWritten);
  }

  lemma ApplyGrows(s: Store, op: Op)
    requires Valid(s)
    ensures Grows(s, Apply(s, op))
  {
    var t := Apply(s, op);
    match op
    case DeployOp(address, endSeconds) =>
    case BidOp(id, userId, tx, addr, reverts) =>
      forall i | 0 <= i < |s.bids| ensures BidGrows(s.bids[i], t.bids[i]) {
        if BidStep(s, id, userId, tx, addr, reverts).result.Ok? {
          assert t.bids[i] == (s.bids + [BidRow(s.nextBidId, id, userId, tx.from, tx.value, false)])[i];
        }
      }
    case WithdrawOp(id, bidId, userId, tx, addr, reverts, outcome) =>
      var st := WithdrawStep(s, id, bidId, userId, tx, addr, reverts, outcome);
      if st.result.Ok? {
        var k := FindBid(s.bids, bidId, id).value;
        forall i | 0 <= i < |s.bids| ensures BidGrows(s.bids[i], t.bids[i]) {
          assert SameRow(s.bids[i], t.bids[i]);
        }
      }
    case EndOp(id, now, reverts, txHash, flagWritten) =>
  }

  lemma GrowsTransitive(s: Store, t: Store, u: Store)
    requires Grows(s, t) && Grows(t, u)
    ensures Grows(s, u)
  {
  }

  /** Over any run of operations from a valid store the store stays valid, no
      row disappears, an auction's address and end time never change, its
      highest bid never goes down, and `ended` and `returned` never go back
      from true to false. */
  lemma {:induction false} RunKeepsValidAndGrows(s: Store, ops: seq<Op>)
    requires Valid(s)
    ensures Valid(Run(s, ops)) && Grows(s, Run(s, ops))
    decreases |ops|
  {
    if ops != [] {
      var t := Apply(s, ops[0]);
      ApplyKeepsValid(s, ops[0]);
      ApplyGrows(s, ops[0]);
      RunKeepsValidAndGrows(t, ops[1..]);
      GrowsTransitive(s, t, Run(s, ops));
    }
  }
}
