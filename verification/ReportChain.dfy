/** Which reports pass the chaining check: any reports, not only those of runs, on byte strings. */
module ReportChains {
  import opened Wrappers
  import opened Primitives
  import opened Crypto
  import opened Requests
  import opened Sequences
  import opened Reporting
  import opened MerkleBinding
  import opened Chains
  import Frames
  import R = Responses
  import ResponseFrames

  /** Both messages of an entry can be parsed. */
  predicate Parses(entry: Entry) {
    FromFrame(entry.request).Ok? && ResponseFrames.FromFrame(entry.response).Ok?
  }

  function ReplyOf(entry: Entry): Reply
    requires Parses(entry)
  {
    SizedReply(entry.response);
    ResponseFrames.FromFrame(entry.response).value.0
  }

  function NonceOf(entry: Entry): Bytes32
    requires Parses(entry)
  {
    FromFrame(entry.request).value.0.nonc
  }

  /** A nonce is the digest of the frame of the response before it and the random bytes. */
  predicate Hashes(suite: Suite, before: Reply, rand: Bytes32, nonc: Bytes32) {
    nonc == suite.digest(PlainReply(before) + rand)
  }

  predicate Linked(suite: Suite, before: Entry, entry: Entry)
    requires Parses(before) && Parses(entry)
  {
    entry.rand.Some? && Hashes(suite, ReplyOf(before), entry.rand.value, NonceOf(entry))
  }

  predicate LinkedAt(suite: Suite, entries: seq<Entry>, k: nat)
    requires 0 < k < |entries|
  {
    Parses(entries[k - 1]) && Parses(entries[k]) && Linked(suite, entries[k - 1], entries[k])
  }

  /** At least two entries, all of them parsed, the first without random bytes, each later one linked. */
  predicate Intact(suite: Suite, entries: seq<Entry>) {
    && |entries| >= 2
    && Parses(entries[0]) && entries[0].rand == None
    && (forall k :: 0 < k < |entries| ==> LinkedAt(suite, entries, k))
  }

  // ---- The check accepts exactly these ----------------------------------------------------------------

  lemma FirstEntryExactly(suite: Suite, entry: Entry, index: nat)
    ensures var r := CheckEntry(suite, entry, None, index);
            && (r.Ok? <==> Parses(entry) && entry.rand == None) && (r.Ok? ==> r.value == ReplyOf(entry))
            && (Parses(entry) && entry.rand.Some? ==> r == Err(UnexpectedRand(index)))
  {
  }

  lemma UnparsedEntry(suite: Suite, entry: Entry, previous: Option<Reply>, index: nat)
    requires !Parses(entry)
    ensures CheckEntry(suite, entry, previous, index) ==
            Err(if FromFrame(entry.request).Err? then InvalidRequest(index) else InvalidResponse(index))
  {
  }

  lemma HashesIsChained(suite: Suite, before: Reply, rand: Bytes32, nonc: Bytes32)
    ensures Hashes(suite, before, rand, nonc) <==> nonc == ChainedNonce(suite, before, rand)
  {
    hide PlainReply, ChainedNonce;
    ChainedNonceIsPlain(suite, before, rand);
  }

  /** A later entry passes when its nonce is the digest of the frame before it and its random bytes; what else fails it. */
  lemma LaterEntryExactly(suite: Suite, entry: Entry, response: Reply, index: nat)
    ensures var r := CheckEntry(suite, entry, Some(response), index);
            if !Parses(entry) then r == Err(if FromFrame(entry.request).Err? then InvalidRequest(index) else InvalidResponse(index))
            else if entry.rand == None then r == Err(MissingRand(index))
            else if !Hashes(suite, response, entry.rand.value, NonceOf(entry)) then r == Err(WrongNonce(index))
            else r == Ok(ReplyOf(entry))
  {
    hide PlainReply, Hashes, ChainedNonce;
    if !Parses(entry) {
      UnparsedEntry(suite, entry, Some(response), index);
    } else if entry.rand.Some? {
      HashesIsChained(suite, response, entry.rand.value, NonceOf(entry));
    }
  }

  type Replying = Entry -> Option<Reply>

  type Following = (Entry, Entry) -> bool

  function Replies(): Replying {
    (entry: Entry) => if Parses(entry) then Some(ReplyOf(entry)) else None
  }

  function Follows(suite: Suite): Following {
    (before: Entry, entry: Entry) => Parses(before) && Parses(entry) && Linked(suite, before, entry)
  }

  /** All that is used of the check of a later entry: it yields the entry's reply, and passes those that follow. */
  ghost predicate ChecksFollowers(check: Checking, reply: Replying, follows: Following) {
    forall before, entry, index {:trigger check(entry, reply(before), index)} ::
      reply(before).Some? ==>
        && (check(entry, reply(before), index).Ok? <==> follows(before, entry))
        && (check(entry, reply(before), index).Ok? ==> reply(entry) == Some(check(entry, reply(before), index).value))
  }

  lemma FollowerExactly(suite: Suite, before: Entry, entry: Entry, index: nat)
    requires Parses(before)
    ensures var r := CheckEntry(suite, entry, Some(ReplyOf(before)), index);
            && (r.Ok? <==> Follows(suite)(before, entry))
            && (r.Ok? ==> Replies()(entry) == Some(r.value))
  {
    hide PlainReply, Hashes;
    LaterEntryExactly(suite, entry, ReplyOf(before), index);
  }

  lemma {:induction false} CheckIsOfFollowers(suite: Suite)
    ensures ChecksFollowers(CheckWith(suite), Replies(), Follows(suite))
  {
    forall before: Entry, entry: Entry, index: nat | Parses(before)
      ensures var r := CheckEntry(suite, entry, Some(ReplyOf(before)), index);
              && (r.Ok? <==> Follows(suite)(before, entry))
              && (r.Ok? ==> Replies()(entry) == Some(r.value))
    {
      FollowerExactly(suite, before, entry, index);
    }
  }

  /** From entry k on, behind a parsed one, all pass exactly when each follows the one before. */
  lemma {:induction false} RestExactly(check: Checking, reply: Replying, follows: Following, entries: seq<Entry>, k: nat)
    requires ChecksFollowers(check, reply, follows) && 0 < k <= |entries| && reply(entries[k - 1]).Some?
    ensures CheckAll(check, entries[k..], reply(entries[k - 1]), k).Ok? <==>
            forall i :: k <= i < |entries| ==> follows(entries[i - 1], entries[i])
    decreases |entries| - k
  {
    if k < |entries| {
      var before, entry := entries[k - 1], entries[k];
      assert entries[k..][0] == entry && entries[k..][1..] == entries[k + 1..];
      if check(entry, reply(before), k).Ok? {
        RestExactly(check, reply, follows, entries, k + 1);
      }
    }
  }

  lemma {:induction false} AllFollow(suite: Suite, entries: seq<Entry>)
    ensures (forall i :: 1 <= i < |entries| ==> Follows(suite)(entries[i - 1], entries[i])) <==>
            (forall k :: 0 < k < |entries| ==> LinkedAt(suite, entries, k))
  {
    forall k | 0 < k < |entries|
      ensures Follows(suite)(entries[k - 1], entries[k]) <==> LinkedAt(suite, entries, k)
    {
    }
  }

  lemma {:induction false} UnfoldFirst(check: Checking, entries: seq<Entry>)
    requires entries != []
    ensures var first := check(entries[0], None, 0);
            CheckAll(check, entries, None, 0).Ok? <==> first.Ok? && CheckAll(check, entries[1..], Some(first.value), 1).Ok?
  {
  }

  /** Any report passes exactly when it is intact. */
  lemma {:induction false} ReportPassesExactly(suite: Suite, entries: seq<Entry>)
    ensures CheckReport(suite, entries).Ok? <==> Intact(suite, entries)
  {
    if |entries| >= 2 {
      UnfoldFirst(CheckWith(suite), entries);
      FirstEntryExactly(suite, entries[0], 0);
      if Parses(entries[0]) {
        CheckIsOfFollowers(suite);
        RestExactly(CheckWith(suite), Replies(), Follows(suite), entries, 1);
        AllFollow(suite, entries);
      }
    }
  }

  // ---- Tampering ------------------------------------------------------------------------------------------

  lemma LinkBinds(suite: Suite, before: Entry, entry: Entry, other: Entry, next: Entry)
    requires Parses(before) && Parses(entry) && Linked(suite, before, entry)
    requires Parses(other) && Parses(next) && Linked(suite, other, next) && next.request == entry.request
    ensures var r1, r2, x1, x2 := ReplyOf(before), ReplyOf(other), entry.rand.value, next.rand.value;
            || (PlainReply(r1) == PlainReply(r2) && x1 == x2)
            || DigestCollision(suite.digest, PlainReply(r1) + x1, PlainReply(r2) + x2)
  {
    SameSplit(PlainReply(ReplyOf(before)), entry.rand.value, PlainReply(ReplyOf(other)), next.rand.value);
  }

  /**
    Tamper evidence. In a report that passes, let the response of entry k or the random bytes of
    entry k + 1 be changed and the request of entry k + 1 be kept. Then the report is refused, or
    the response still prints to the same frame and the random bytes are the same, or the digest
    collides on the two strings that the two reports chain with.
  */
  lemma {:induction false} TamperingIsRefused(suite: Suite, entries: seq<Entry>, other: seq<Entry>, k: nat)
    requires CheckReport(suite, entries).Ok? && k + 1 < |entries| && k + 1 < |other|
    requires other[k + 1].request == entries[k + 1].request
    ensures Parses(entries[k]) && entries[k + 1].rand.Some?
    ensures CheckReport(suite, other).Ok? ==>
              && Parses(other[k]) && other[k + 1].rand.Some?
              && var r1, r2, x1, x2 := ReplyOf(entries[k]), ReplyOf(other[k]), entries[k + 1].rand.value, other[k + 1].rand.value;
                 || (PlainReply(r1) == PlainReply(r2) && x1 == x2)
                 || DigestCollision(suite.digest, PlainReply(r1) + x1, PlainReply(r2) + x2)
  {
    hide PlainReply, Hashes;
    ReportPassesExactly(suite, entries);
    ReportPassesExactly(suite, other);
    assert LinkedAt(suite, entries, k + 1);
    if CheckReport(suite, other).Ok? {
      assert LinkedAt(suite, other, k + 1);
      LinkBinds(suite, entries[k], entries[k + 1], other[k], other[k + 1]);
    }
  }

  /** Entries that differ at most in a response that prints alike. */
  predicate Alike(entry: Entry, other: Entry) {
    && Parses(entry) && Parses(other)
    && other.request == entry.request && other.rand == entry.rand && PlainReply(ReplyOf(other)) == PlainReply(ReplyOf(entry))
  }

  lemma SameFrameHashes(suite: Suite, before: Reply, before': Reply, rand: Bytes32, nonc: Bytes32)
    requires PlainReply(before') == PlainReply(before)
    ensures Hashes(suite, before, rand, nonc) <==> Hashes(suite, before', rand, nonc)
  {
    hide PlainReply;
  }

  lemma AlikeLinked(suite: Suite, before: Entry, entry: Entry, before': Entry, entry': Entry)
    requires Alike(before, before') && Alike(entry, entry')
    ensures Linked(suite, before, entry) <==> Linked(suite, before', entry')
  {
    hide PlainReply, Hashes;
    if entry.rand.Some? {
      SameFrameHashes(suite, ReplyOf(before), ReplyOf(before'), entry.rand.value, NonceOf(entry));
    }
  }

  lemma {:induction false} AllParse(suite: Suite, entries: seq<Entry>, k: nat)
    requires Intact(suite, entries) && k < |entries|
    ensures Parses(entries[k])
  {
    if k > 0 {
      assert LinkedAt(suite, entries, k);
    }
  }

  lemma {:induction false} AlikeLinkedAt(suite: Suite, entries: seq<Entry>, other: seq<Entry>, i: nat)
    requires |other| == |entries| && 0 < i < |entries| && LinkedAt(suite, entries, i)
    requires Alike(entries[i - 1], other[i - 1]) && Alike(entries[i], other[i])
    ensures LinkedAt(suite, other, i)
  {
    AlikeLinked(suite, entries[i - 1], entries[i], other[i - 1], other[i]);
  }

  /** The exception is real: a response that parses to one that prints alike can be put in the place of another. */
  lemma {:induction false} ReprintedResponsePasses(suite: Suite, entries: seq<Entry>, k: nat, entry: Entry)
    requires CheckReport(suite, entries).Ok? && k < |entries| && Alike(entries[k], entry)
    ensures CheckReport(suite, entries[k := entry]).Ok?
  {
    hide PlainReply, Hashes, Linked, CheckReport, ReplyOf, Parses;
    var other := entries[k := entry];
    ReportPassesExactly(suite, entries);
    ReportPassesExactly(suite, other);
    forall i | 0 <= i < |other|
      ensures Alike(entries[i], other[i])
    {
      AllParse(suite, entries, i);
    }
    forall i | 0 < i < |other|
      ensures LinkedAt(suite, other, i)
    {
      assert LinkedAt(suite, entries, i);
      AlikeLinkedAt(suite, entries, other, i);
    }
  }

  /** For example one with bytes behind the message. */
  lemma TrailedFrameReprints(r: Reply, rest: Bytes)
    requires R.Coherent(r, 0) && |rest| < 0x800
    ensures |R.Encode(r) + rest| < 0x1_0000_0000
    ensures ResponseFrames.FromFrame(Frames.Framed(R.Encode(r) + rest)) == Ok((r, rest))
    ensures ResponseFrames.FromFrame(PlainReply(r)) == Ok((r, []))
    ensures rest != [] ==> Frames.Framed(R.Encode(r) + rest) != PlainReply(r)
  {
    ResponseFrames.SizeBound(r);
    Frames.UnframeFramed(R.Encode(r) + rest);
    R.MoreBehindCoherent(r, |rest|);
    R.ParsePrinted(r, rest);
    ResponseFrames.FrameRoundTrip(r);
  }
}
