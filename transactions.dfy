/** The shape checks a caller-signed transaction must pass before the
    auction forwards it to the ledger (src/auction.ts, `bid` and `withdraw`).
    Decoding the serialised transaction and recovering its signer belong to
    the ledger client; the checks see only the decoded fields. */
module Transactions {
  import opened Errors

  /** The decoded fields the checks read: whether it carries a signature,
      its target (`None` for a contract creation), its recovered sender,
      its value in wei and its call data as a hex string. */
  datatype Tx = Tx(signed: bool, to: Option<string>, from: string, value: nat, data: string)

  /** Length of a hex-encoded four-byte selector with its `0x` prefix. */
  const SelectorLength: nat := 10

  /** Selector of the contract's `bid()` (first four bytes of Keccak-256 of "bid()"). */
  const BidSelector: string := "0x1998aeef"

  /** Selector of the contract's `withdraw()`. */
  const WithdrawSelector: string := "0x3ccfd60b"

  predicate IsUpper(c: char) {
    'A' <= c <= 'Z'
  }

  /** `toLowerCase` on one character (ASCII letters only). */
  function LowerChar(c: char): (l: char)
    ensures !IsUpper(l)
    ensures l == c || (IsUpper(c) && l as int == c as int + 32)
  {
    if IsUpper(c) then (c as int + 32) as char else c
  }

  function Lower(s: string): (r: string)
    ensures |r| == |s|
    ensures forall i :: 0 <= i < |s| ==> r[i] == LowerChar(s[i])
  {
    seq(|s|, i requires 0 <= i < |s| => LowerChar(s[i]))
  }

  /** JavaScript's `s.slice(0, n)`: the first `n` characters, or all of a shorter string. */
  function Prefix(s: string, n: nat): (p: string)
    ensures |p| == if n <= |s| then n else |s|
    ensures p <= s
  {
    if n <= |s| then s[..n] else s
  }

  /** The selector test of both checks: lower-cased, the selector equals the
      first ten characters of the call data. */
  predicate SelectorMatches(selector: string, data: string): (m: bool)
    ensures m ==> |selector| <= SelectorLength && |selector| <= |data|
    ensures m ==> forall i :: 0 <= i < |selector| ==> LowerChar(selector[i]) == LowerChar(data[i])
  {
    Lower(selector) == Lower(Prefix(data, SelectorLength))
  }

  /** Reference definition of a case-insensitive character match,
      written without lower-casing. */
  predicate SameIgnoringCase(a: char, b: char) {
    a == b || (IsUpper(a) && b as int == a as int + 32) || (IsUpper(b) && a as int == b as int + 32)
  }

  /** The bid transaction shape (src/auction.ts:101-106): signed, carrying
      value, sent to the auction's contract, and calling `bid()`. */
  predicate BidShapeOk(tx: Tx, contractAddress: string): (ok: bool)
    ensures ok <==>
              && tx.signed && tx.value > 0 && tx.to == Some(contractAddress)
              && SelectorLength <= |tx.data|
              && forall i :: 0 <= i < |BidSelector| ==> SameIgnoringCase(BidSelector[i], tx.data[i])
  {
    SelectorMatchesIff(BidSelector, tx.data);
    tx.signed && tx.value != 0 && tx.to == Some(contractAddress) && SelectorMatches(BidSelector, tx.data)
  }

  /** The withdrawal transaction shape (src/auction.ts:171-176): signed,
      carrying no value, sent to the auction's contract, and calling `withdraw()`. */
  predicate WithdrawShapeOk(tx: Tx, contractAddress: string): (ok: bool)
    ensures ok <==>
              && tx.signed && tx.value == 0 && tx.to == Some(contractAddress)
              && SelectorLength <= |tx.data|
              && forall i :: 0 <= i < |WithdrawSelector| ==> SameIgnoringCase(WithdrawSelector[i], tx.data[i])
  {
    SelectorMatchesIff(WithdrawSelector, tx.data);
    tx.signed && tx.value == 0 && tx.to == Some(contractAddress) && SelectorMatches(WithdrawSelector, tx.data)
  }

  lemma LowerCharMatch(a: char, b: char)
    ensures LowerChar(a) == LowerChar(b) <==> SameIgnoringCase(a, b)
  {
  }

  /** The selector test, stated character by character: the selector is
      exactly as long as the first ten characters of the call data (all of it
      when the data is shorter), and each selector character equals the data
      character at the same place up to case. */
  lemma SelectorMatchesIff(selector: string, data: string)
    ensures SelectorMatches(selector, data) <==>
              |selector| == (if SelectorLength <= |data| then SelectorLength else |data|) &&
              forall i :: 0 <= i < |selector| ==> SameIgnoringCase(selector[i], data[i])
  {
    var p := Prefix(data, SelectorLength);
    if SelectorMatches(selector, data) {
      forall i | 0 <= i < |selector|
        ensures SameIgnoringCase(selector[i], data[i])
      {
        assert Lower(selector)[i] == Lower(p)[i];
        LowerCharMatch(selector[i], p[i]);
      }
    }
    if |selector| == |p| && forall i :: 0 <= i < |selector| ==> SameIgnoringCase(selector[i], data[i]) {
      forall i | 0 <= i < |selector|
        ensures Lower(selector)[i] == Lower(p)[i]
      {
        LowerCharMatch(selector[i], p[i]);
      }
      assert Lower(selector) == Lower(p);
    }
  }

  /** Call data shorter than a selector never passes either check. */
  lemma ShortDataRejected(data: string)
    requires |data| < SelectorLength
    ensures !SelectorMatches(BidSelector, data) && !SelectorMatches(WithdrawSelector, data)
  {
    assert |Lower(Prefix(data, SelectorLength))| < |Lower(BidSelector)|;
  }

  /** Changing the case of the call data does not change the verdict. */
  lemma SelectorIgnoresDataCase(selector: string, data: string)
    ensures SelectorMatches(selector, Lower(data)) == SelectorMatches(selector, data)
  {
    var p, q := Prefix(data, SelectorLength), Prefix(Lower(data), SelectorLength);
    assert Lower(q) == Lower(p) by {
      assert |q| == |p|;
      forall i | 0 <= i < |p| ensures Lower(q)[i] == Lower(p)[i] {
        assert q[i] == Lower(data)[i] == LowerChar(data[i]) && p[i] == data[i];
      }
    }
  }

  /** No call data passes both selector tests, so no transaction is both a
      well-formed bid and a well-formed withdrawal. */
  lemma SelectorsExclusive(data: string)
    ensures !(SelectorMatches(BidSelector, data) && SelectorMatches(WithdrawSelector, data))
  {
    assert Lower(BidSelector)[2] == '1' && Lower(WithdrawSelector)[2] == '3';
  }
}
