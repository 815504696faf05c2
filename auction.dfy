/** The service object of src/auction.ts: class `Auction`, whose methods read
    and update the two mirror tables in place. Each state-changing method is
    specified by the matching step of module `Coordinator` and keeps the
    mirror invariant; the ledger's answers are parameters. */
module AuctionService {
  import opened Errors
  import opened Transactions
  import opened Mirror
  import opened Coordinator

  class Auction {
    var auctions: map<nat, AuctionRow>
    var bids: seq<BidRow>
    var nextAuctionId: nat
    var nextBidId: nat

    /** The tables as a value. */
    function State(): Store
      reads this
    {
      Store(auctions, bids, nextAuctionId, nextBidId)
    }

    ghost predicate Valid()
      reads this
    {
      Mirror.Valid(State())
    }

    /** An empty mirror. */
    constructor ()
      ensures Valid() && State() == Empty
    {
      auctions, bids := map[], [];
      nextAuctionId, nextBidId := 1, 1;
    }

    /** The private `contract(id)` lookup. */
    method Contract(id: nat) returns (r: Result<AuctionRow>)
      ensures r == FindAuction(State(), id)
    {
      if id !in auctions {
        return Err(ContractNotFound);
      }
      r := Ok(auctions[id]);
    }

    /** `deploy`: the contract has been deployed at `address` and reports
        `endSeconds` as its end time. */
    method Deploy(address: string, endSeconds: nat) returns (r: Result<nat>)
      requires Valid()
      modifies this
      ensures Valid()
      ensures Step(r, State()) == DeployStep(old(State()), address, endSeconds)
    {
      DeployKeepsValid(State(), address, endSeconds);
      if MaxDateMs < endSeconds * 1000 {
        return Err(StoreError);
      }
      var id := nextAuctionId;
      auctions := auctions[id := AuctionRow(address, endSeconds * 1000, false, 0)];
      nextAuctionId := nextAuctionId + 1;
      r := Ok(id);
    }

    /** `status`, given whether the contract reads throw and what they report. */
    method Status(id: nat, readFails: bool, chainEndSeconds: nat, chainHighestBid: nat) returns (r: Result<AuctionStatus>)
      ensures r == StatusOf(State(), id, readFails, chainEndSeconds, chainHighestBid)
    {
      var found := Contract(id);
      if found.Err? {
        return Err(found.error);
      }
      if readFails {
        return Err(LedgerError);
      }
      r := Ok(AuctionStatus(chainEndSeconds * 1000, chainHighestBid, found.value.ended));
    }

    /** `history`: the unreturned bids of auction `id`, as address and amount. */
    method History(id: nat) returns (h: seq<BidView>)
      ensures h == Mirror.History(bids, id)
    {
      h := Mirror.History(bids, id);
    }

    /** `bid`, given the address the client resolves for the contract and
        whether the ledger's dry run of `tx` reverts. */
    method Bid(id: nat, userId: nat, tx: Tx, contractAddress: string, callReverts: bool) returns (r: Result<()>)
      requires Valid()
      modifies this
      ensures Valid()
      ensures Step(r, State()) == BidStep(old(State()), id, userId, tx, contractAddress, callReverts)
    {
      BidKeepsValid(State(), id, userId, tx, contractAddress, callReverts);
      var found := Contract(id);
      if found.Err? {
        return Err(found.error);
      }
      var data := found.value;
      if !BidShapeOk(tx, contractAddress) {
        return Err(InvalidFormat);
      }
      if tx.value <= data.highestBid {
        return Err(ValueTooLow);
      }
      if callReverts {
        return Err(LedgerError);
      }
      bids := bids + [BidRow(nextBidId, id, userId, tx.from, tx.value, false)];
      nextBidId := nextBidId + 1;
      auctions := auctions[id := data.(highestBid := tx.value)];
      r := Ok(());
    }

    /** The local checks of `rawWithdraw`; building the template is the ledger client's. */
    method RawWithdraw(id: nat, bidId: nat) returns (r: Result<()>)
      ensures r == RawWithdrawCheck(State(), id, bidId)
    {
      var i := FindBid(bids, bidId, id);
      if i.None? {
        return Err(BidNotFound);
      }
      if bids[i.value].returned {
        return Err(AlreadyWithdrawn);
      }
      var found := Contract(id);
      if found.Err? {
        return Err(found.error);
      }
      r := Ok(());
    }

    /** `withdraw`, given the contract address, whether the dry run reverts
        and the boolean its result decodes to. */
    method Withdraw(id: nat, bidId: nat, userId: nat, tx: Tx, contractAddress: string,
                    callReverts: bool, outcome: bool) returns (r: Result<bool>)
      requires Valid()
      modifies this
      ensures Valid()
      ensures Step(r, State()) == WithdrawStep(old(State()), id, bidId, userId, tx, contractAddress, callReverts, outcome)
    {
      WithdrawKeepsValid(State(), id, bidId, userId, tx, contractAddress, callReverts, outcome);
      var i := FindBid(bids, bidId, id);
      if i.None? {
        return Err(BidNotFound);
      }
      var bid := bids[i.value];
      if bid.returned {
        return Err(AlreadyWithdrawn);
      }
      var found := Contract(id);
      if found.Err? {
        return Err(found.error);
      }
      if !WithdrawShapeOk(tx, contractAddress) {
        return Err(InvalidFormat);
      }
      if tx.from != bid.address || bid.ownerId != userId {
        return Err(NotBidOwner);
      }
      if callReverts {
        return Err(LedgerError);
      }
      bids := bids[i.value := bid.(returned := outcome)];
      r := Ok(outcome);
    }

    /** `end` at time `now` (milliseconds), given whether submitting
        `auctionEnd` fails, the hash it returns, and whether the mirror's
        un-awaited `ended` update lands. */
    method End(id: nat, now: int, callReverts: bool, txHash: string, flagWritten: bool) returns (r: Result<string>)
      requires Valid()
      modifies this
      ensures Valid()
      ensures Step(r, State()) == EndStep(old(State()), id, now, callReverts, txHash, flagWritten)
    {
      EndKeepsValid(State(), id, now, callReverts, txHash, flagWritten);
      var found := Contract(id);
      if found.Err? {
        return Err(found.error);
      }
      var data := found.value;
      if now < data.endTime {
        return Err(NotYetEndable);
      }
      if data.ended {
        return Err(AlreadyEnded);
      }
      if callReverts {
        return Err(LedgerError);
      }
      if flagWritten {
        auctions := auctions[id := data.(ended := true)];
      }
      r := Ok(txHash);
    }
  }
}
