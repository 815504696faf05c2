/** The off-chain mirror: the `auction` and `bid` tables the service keeps
    beside the ledger, the queries it runs on them, and the invariant every
    operation of the service keeps. */
module Mirror {
  import opened Errors

  /** A row of the auction table; `endTime` is in milliseconds. */
  datatype AuctionRow = AuctionRow(address: string, endTime: int, ended: bool, highestBid: nat)

  /** A row of the bid table; `address` is the ledger address that signed it. */
  datatype BidRow = BidRow(id: nat, auctionId: nat, ownerId: nat, address: string, amount: nat, returned: bool)

  /** What `history` shows of a bid: its address and amount, and no owner. */
  datatype BidView = BidView(address: string, amount: nat)

  /** Both tables: auctions by id, bids in insertion order, and the next id
      each table's auto-increment hands out. */
  datatype Store = Store(auctions: map<nat, AuctionRow>, bids: seq<BidRow>, nextAuctionId: nat, nextBidId: nat)

  const Empty: Store := Store(map[], [], 1, 1)

  /** The amount of the most recent bid on `auctionId`, or 0 when there is none. */
  function LastBidAmount(bids: seq<BidRow>, auctionId: nat): nat
    decreases |bids|
  {
    if bids == [] then 0
    else if bids[|bids| - 1].auctionId == auctionId then bids[|bids| - 1].amount
    else LastBidAmount(bids[..|bids| - 1], auctionId)
  }

  ghost predicate RowOk(s: Store, b: BidRow) {
    b.id < s.nextBidId && b.auctionId in s.auctions && 0 < b.amount <= s.auctions[b.auctionId].highestBid
  }

  /** The mirror's invariant: ids are below the next id to hand out, bid ids
      grow in insertion order, every bid belongs to an existing auction and
      is positive, later bids on an auction are strictly larger, and an
      auction's `highestBid` is the amount of its most recent bid. */
  ghost predicate Valid(s: Store) {
    && (forall a :: a in s.auctions ==> a < s.nextAuctionId)
    && (forall a :: a in s.auctions ==> s.auctions[a].highestBid == LastBidAmount(s.bids, a))
    && (forall i :: 0 <= i < |s.bids| ==> RowOk(s, s.bids[i]))
    && (forall i, j :: 0 <= i < j < |s.bids| ==> s.bids[i].id < s.bids[j].id)
    && (forall i, j :: 0 <= i < j < |s.bids| && s.bids[i].auctionId == s.bids[j].auctionId ==>
          s.bids[i].amount < s.bids[j].amount)
  }

  predicate IsBid(b: BidRow, bidId: nat, auctionId: nat) {
    b.id == bidId && b.auctionId == auctionId
  }

  /** `bid.findUnique({ where: { id, auctionId } })`: the position of the
      first row with that id on that auction. */
  function FindBid(bids: seq<BidRow>, bidId: nat, auctionId: nat): (r: Option<nat>)
    ensures r.Some? ==> r.value < |bids| && IsBid(bids[r.value], bidId, auctionId)
    ensures r.Some? ==> forall j :: 0 <= j < r.value ==> !IsBid(bids[j], bidId, auctionId)
    ensures r.None? ==> forall j :: 0 <= j < |bids| ==> !IsBid(bids[j], bidId, auctionId)
    decreases |bids|
  {
    if bids == [] then None
    else if IsBid(bids[0], bidId, auctionId) then Some(0)
    else match FindBid(bids[1..], bidId, auctionId)
      case None => None
      case Some(k) => Some(k + 1)
  }

  /** The `where` filter of `history`. */
  predicate Listed(b: BidRow, auctionId: nat) {
    b.auctionId == auctionId && !b.returned
  }

  /** The `select` projection of `history`. */
  function View(b: BidRow): BidView {
    BidView(b.address, b.amount)
  }

  /** `history`: the bids of an auction that have not been returned, in table
      order, projected to address and amount. */
  function History(bids: seq<BidRow>, auctionId: nat): (h: seq<BidView>)
    ensures |h| <= |bids|
    ensures forall v :: v in h ==> exists i :: 0 <= i < |bids| && Listed(bids[i], auctionId) && View(bids[i]) == v
    ensures forall i :: 0 <= i < |bids| && Listed(bids[i], auctionId) ==> View(bids[i]) in h
    decreases |bids|
  {
    if bids == [] then []
    else
      var rest := History(bids[1..], auctionId);
      assert forall i :: 1 <= i < |bids| ==> bids[i] == bids[1..][i - 1];
      if Listed(bids[0], auctionId) then [View(bids[0])] + rest else rest
  }

  /** Two rows that agree on every column except `returned`. */
  predicate SameRow(b: BidRow, c: BidRow) {
    b.id == c.id && b.auctionId == c.auctionId && b.ownerId == c.ownerId && b.address == c.address && b.amount == c.amount
  }

  ghost predicate SameKeys(b1: seq<BidRow>, b2: seq<BidRow>) {
    |b1| == |b2| && forall i :: 0 <= i < |b1| ==> SameRow(b1[i], b2[i])
  }

  /** `bid.update({ where: { id }, data: { returned } })` on the row at position `i`. */
  function SetReturned(bids: seq<BidRow>, i: nat, returned: bool): (r: seq<BidRow>)
    requires i < |bids|
    ensures SameKeys(bids, r)
    ensures r[i].returned == returned
    ensures forall j :: 0 <= j < |bids| && j != i ==> r[j] == bids[j]
  {
    bids[i := bids[i].(returned := returned)]
  }

  lemma LastBidAmountAppend(bids: seq<BidRow>, b: BidRow, auctionId: nat)
    ensures LastBidAmount(bids + [b], auctionId) == if b.auctionId == auctionId then b.amount else LastBidAmount(bids, auctionId)
  {
    assert (bids + [b])[..|bids|] == bids;
  }

  /** An auction no bid refers to has last bid amount 0. */
  lemma {:induction false} LastBidAmountAbsent(bids: seq<BidRow>, auctionId: nat)
    requires forall i :: 0 <= i < |bids| ==> bids[i].auctionId != auctionId
    ensures LastBidAmount(bids, auctionId) == 0
    decreases |bids|
  {
    if bids != [] {
      LastBidAmountAbsent(bids[..|bids| - 1], auctionId);
    }
  }

  /** `LastBidAmount` is the amount of the bid on the auction that no later
      bid on the same auction follows. */
  lemma {:induction false} LastBidAmountIsLatest(bids: seq<BidRow>, auctionId: nat, i: nat)
    requires i < |bids| && bids[i].auctionId == auctionId
    requires forall j :: i < j < |bids| ==> bids[j].auctionId != auctionId
    ensures LastBidAmount(bids, auctionId) == bids[i].amount
    decreases |bids|
  {
    if i < |bids| - 1 {
      LastBidAmountIsLatest(bids[..|bids| - 1], auctionId, i);
    }
  }

  /** Only ids, auctions and amounts decide `LastBidAmount`; `returned` does not. */
  lemma {:induction false} LastBidAmountSameKeys(b1: seq<BidRow>, b2: seq<BidRow>, auctionId: nat)
    requires SameKeys(b1, b2)
    ensures LastBidAmount(b1, auctionId) == LastBidAmount(b2, auctionId)
    decreases |b1|
  {
    if b1 != [] {
      var n := |b1| - 1;
      assert SameRow(b1[n], b2[n]);
      assert SameKeys(b1[..n], b2[..n]) by {
        forall i | 0 <= i < n ensures SameRow(b1[..n][i], b2[..n][i]) {
          assert SameRow(b1[i], b2[i]);
        }
      }
      LastBidAmountSameKeys(b1[..n], b2[..n], auctionId);
    }
  }

  /** Only ids and auctions decide `FindBid`; `returned` does not. */
  lemma {:induction false} FindBidSameKeys(b1: seq<BidRow>, b2: seq<BidRow>, bidId: nat, auctionId: nat)
    requires SameKeys(b1, b2)
    ensures FindBid(b1, bidId, auctionId) == FindBid(b2, bidId, auctionId)
    decreases |b1|
  {
    if b1 != [] {
      assert SameRow(b1[0], b2[0]);
      assert SameKeys(b1[1..], b2[1..]) by {
        forall i | 0 <= i < |b1| - 1 ensures SameRow(b1[1..][i], b2[1..][i]) {
          assert SameRow(b1[i + 1], b2[i + 1]);
        }
      }
      FindBidSameKeys(b1[1..], b2[1..], bidId, auctionId);
    }
  }

  /** `history` keeps table order: listing two runs of rows back to back
      lists the first run, then the second. */
  lemma {:induction false} HistoryAppend(b1: seq<BidRow>, b2: seq<BidRow>, auctionId: nat)
    ensures History(b1 + b2, auctionId) == History(b1, auctionId) + History(b2, auctionId)
    decreases |b1|
  {
    if b1 != [] {
      assert (b1 + b2)[0] == b1[0] && (b1 + b2)[1..] == b1[1..] + b2;
      HistoryAppend(b1[1..], b2, auctionId);
    } else {
      assert b1 + b2 == b2;
    }
  }

  /** The listing splits at any row: the rows before it, that row if listed, the rows after it. */
  lemma HistorySplit(bids: seq<BidRow>, i: nat, auctionId: nat)
    requires i < |bids|
    ensures History(bids, auctionId) ==
              History(bids[..i], auctionId)
              + (if Listed(bids[i], auctionId) then [View(bids[i])] else [])
              + History(bids[i + 1..], auctionId)
  {
    assert bids == bids[..i] + ([bids[i]] + bids[i + 1..]);
    HistoryAppend(bids[..i], [bids[i]] + bids[i + 1..], auctionId);
    assert ([bids[i]] + bids[i + 1..])[1..] == bids[i + 1..];
  }

  /** Marking a row returned drops exactly that row from the listing. */
  lemma HistoryWithoutReturned(bids: seq<BidRow>, i: nat, auctionId: nat)
    requires i < |bids|
    ensures History(SetReturned(bids, i, true), auctionId) ==
              History(bids[..i], auctionId) + History(bids[i + 1..], auctionId)
  {
    var t := SetReturned(bids, i, true);
    HistorySplit(t, i, auctionId);
    assert t[..i] == bids[..i];
    assert t[i + 1..] == bids[i + 1..];
  }

  /** No listed row, no history. */
  lemma {:induction false} HistoryEmpty(bids: seq<BidRow>, auctionId: nat)
    requires forall i :: 0 <= i < |bids| ==> !Listed(bids[i], auctionId)
    ensures History(bids, auctionId) == []
    decreases |bids|
  {
    if bids != [] {
      assert !Listed(bids[0], auctionId);
      HistoryEmpty(bids[1..], auctionId);
    }
  }

  /** In a valid store, the history of an auction that does not exist is empty. */
  lemma HistoryOfUnknownAuction(s: Store, auctionId: nat)
    requires Valid(s) && auctionId !in s.auctions
    ensures History(s.bids, auctionId) == []
  {
    forall i | 0 <= i < |s.bids| ensures !Listed(s.bids[i], auctionId) {
      assert RowOk(s, s.bids[i]);
    }
    HistoryEmpty(s.bids, auctionId);
  }
}
