/**
 * `BadgerRepo`: the message log and the identity store, one ordered
 * byte-keyed table.
 *
 * Messages live under "msg_" followed by the decimal `UnixNano` of their
 * timestamp; the node's private key lives under the reserved key
 * "sys_identity_private_key". Badger's transactions, LSM tree and concurrency
 * are not modelled: a transaction either commits its write (the `commit`
 * outcome is Ok) or leaves the table as it was and returns its error.
 */
module Repository {
  import opened Wrappers
  import opened Octets
  import opened Fmt
  import opened Domain
  import opened Codec
  import opened OrderedTable

  /** `identityKey`. */
  const IdentityKey: Bytes := FromString("sys_identity_private_key")

  const MessagePrefix: Bytes := FromString("msg_")

  /** `fmt.Sprintf("msg_%d", msg.Timestamp.UnixNano())`. */
  function MessageKey(t: Time): (k: Bytes)
    ensures StartsWith(k, MessagePrefix)
  {
    MessagePrefix + FormatInt(UnixNano(t))
  }

  /** The table after a committed `Save(m)`: the message's `msg_` key holds its encoding. */
  function WithMessage(t: Table, m: Message): (r: Table)
    ensures MessageKey(m.timestamp) in r && r[MessageKey(m.timestamp)] == Encode(m)
  {
    t[MessageKey(m.timestamp) := Encode(m)]
  }

  /** The table after `Save` of each message in turn, with each transaction's outcome. */
  function SaveEach(t: Table, ms: seq<Message>, commits: seq<Status>): (r: Table)
    requires |commits| == |ms|
    decreases |ms|
  {
    if ms == [] then t
    else
      var n := |ms| - 1;
      var before := SaveEach(t, ms[..n], commits[..n]);
      if commits[n].Ok? then WithMessage(before, ms[n]) else before
  }

  /** Extending the saved prefix by one message applies that message's save alone. */
  lemma SaveEachStep(t: Table, ms: seq<Message>, commits: seq<Status>, i: nat)
    requires |commits| == |ms| && i < |ms|
    ensures var before := SaveEach(t, ms[..i], commits[..i]);
      SaveEach(t, ms[..i + 1], commits[..i + 1]) == if commits[i].Ok? then WithMessage(before, ms[i]) else before
  {
    assert ms[..i + 1][..i] == ms[..i];
    assert commits[..i + 1][..i] == commits[..i];
  }

  /** What `GetIdentity` finds in a table. */
  function IdentityOf(t: Table): (r: Result<Bytes, Error>)
    ensures r.Success? <==> IdentityKey in t
    ensures r.Success? ==> r.value == t[IdentityKey]
    ensures r.Failure? ==> r.error == KeyNotFound
  {
    if IdentityKey in t then Success(t[IdentityKey]) else Failure(KeyNotFound)
  }

  /** The values under `ks`, each decoded with a failed decode giving the zero message. */
  function DecodeEach(t: Table, ks: seq<Bytes>): (ms: seq<Message>)
    requires forall k :: k in ks ==> k in t
    ensures |ms| == |ks|
    decreases |ks|
  {
    if ks == [] then [] else DecodeEach(t, ks[..|ks| - 1]) + [DecodeOrZero(t[ks[|ks| - 1]])]
  }

  lemma {:induction false} DecodeEachAt(t: Table, ks: seq<Bytes>)
    requires forall k :: k in ks ==> k in t
    ensures forall i :: 0 <= i < |ks| ==> DecodeEach(t, ks)[i] == DecodeOrZero(t[ks[i]])
    decreases |ks|
  {
    if ks != [] {
      DecodeEachAt(t, ks[..|ks| - 1]);
    }
  }

  lemma DecodeEachSnoc(t: Table, ks: seq<Bytes>, k: Bytes)
    requires k in t && forall j :: j in ks ==> j in t
    ensures DecodeEach(t, ks + [k]) == DecodeEach(t, ks) + [DecodeOrZero(t[k])]
  {
    assert (ks + [k])[..|ks|] == ks;
  }

  /** What `GetAll` returns: one message per key, in ascending key order. */
  ghost function Listing(t: Table): (msgs: seq<Message>)
    ensures |msgs| == |t.Keys|
  {
    AscendingMembers(t.Keys);
    DecodeEach(t, Ascending(t.Keys))
  }

  class BadgerRepo {
    var table: Table

    /** `NewBadgerRepo(path)`: opens a data directory whose entries are `existing`. */
    constructor (existing: Table)
      ensures table == existing
    {
      table := existing;
    }

    /** `Save`: one transaction that sets the message's key to its encoding. */
    method Save(m: Message, commit: Status) returns (err: Status)
      modifies this
      ensures err == commit
      ensures table == if commit.Ok? then WithMessage(old(table), m) else old(table)
    {
      var payload := Encode(m);
      var key := MessagePrefix + FormatInt(UnixNano(m.timestamp));
      if commit.Ok? {
        table := table[key := payload];
      }
      err := commit;
    }

    /** `GetAll`: walks the keys in ascending order, decoding every value and never failing. */
    method GetAll() returns (msgs: seq<Message>)
      ensures msgs == Listing(table)
    {
      var t := table;
      var keys := t.Keys;
      msgs := [];
      var pending := keys;
      ghost var visited: seq<Bytes> := [];
      while pending != {}
        invariant pending <= keys
        invariant visited + Ascending(pending) == Ascending(keys)
        invariant forall k :: k in visited ==> k in keys
        invariant msgs == DecodeEach(t, visited)
        decreases |pending|
      {
        var k := FirstKey(pending);
        AscendingFirst(pending, k);
        AppendAssociative(visited, [k], Ascending(pending - {k}));
        DecodeEachSnoc(t, visited, k);
        msgs := msgs + [DecodeOrZero(t[k])];
        visited := visited + [k];
        pending := pending - {k};
      }
      assert visited == Ascending(keys) by {
        assert Ascending(pending) == [];
      }
    }

    /** `SaveIdentity`: one transaction that sets the identity key. */
    method SaveIdentity(privKey: Bytes, commit: Status) returns (err: Status)
      modifies this
      ensures err == commit
      ensures table == if commit.Ok? then old(table)[IdentityKey := privKey] else old(table)
    {
      if commit.Ok? {
        table := table[IdentityKey := privKey];
      }
      err := commit;
    }

    /** `GetIdentity`: the stored key bytes, or Badger's "key not found". */
    method GetIdentity() returns (r: Result<Bytes, Error>)
      ensures r == IdentityOf(table)
    {
      if IdentityKey in table {
        r := Success(table[IdentityKey]);
      } else {
        r := Failure(KeyNotFound);
      }
    }
  }

  /** Every message key sorts strictly before the identity key ('m' < 's'), so the two never meet. */
  lemma MessageKeyBelowIdentity(t: Time)
    ensures LexLt(MessageKey(t), IdentityKey)
    ensures MessageKey(t) != IdentityKey
  {
    var k := MessageKey(t);
    assert k[0] == 109 && IdentityKey[0] == 115;
  }

  /** Any key carrying the message prefix sorts strictly before the identity key. */
  lemma MessagePrefixBelowIdentity(k: Bytes)
    requires StartsWith(k, MessagePrefix)
    ensures LexLt(k, IdentityKey)
  {
    assert k[0] == MessagePrefix[0] == 109 && IdentityKey[0] == 115;
  }

  /** With only message keys besides it, the identity key comes last in the iteration. */
  lemma IdentityLast(t: Table)
    requires IdentityKey in t
    requires forall k :: k in t && k != IdentityKey ==> StartsWith(k, MessagePrefix)
    ensures var ks := Ascending((t - {IdentityKey}).Keys) + [IdentityKey];
      && StrictlyAscending(ks)
      && forall k :: k in ks <==> k in t
  {
    var rest := t - {IdentityKey};
    var below := Ascending(rest.Keys);
    var ks := below + [IdentityKey];
    AscendingSorted(rest.Keys);
    AscendingMembers(rest.Keys);
    forall i, j | 0 <= i < j < |ks|
      ensures LexLt(ks[i], ks[j])
    {
      if j == |below| {
        assert ks[i] in rest;
        MessagePrefixBelowIdentity(ks[i]);
      } else {
        assert ks[i] == below[i] && ks[j] == below[j];
      }
    }
    forall k
      ensures k in ks <==> k in t
    {
      assert k in ks <==> k in below || k == IdentityKey;
    }
  }

  /**
   * `GetAll` on any store holding an identity that does not decode and
   * otherwise only message keys: the messages in key order, then one zero
   * message for the identity entry.
   */
  lemma ListingWithIdentity(t: Table)
    requires IdentityKey in t && Decode(t[IdentityKey]) == None
    requires forall k :: k in t && k != IdentityKey ==> StartsWith(k, MessagePrefix)
    ensures Listing(t) == Listing(t - {IdentityKey}) + [ZeroMessage]
  {
    ListingWithIdentityAt(t);
  }

  /** `ListingWithIdentity`, position by position. */
  lemma ListingWithIdentityAt(t: Table)
    requires IdentityKey in t && Decode(t[IdentityKey]) == None
    requires forall k :: k in t && k != IdentityKey ==> StartsWith(k, MessagePrefix)
    ensures var l, r := Listing(t), Listing(t - {IdentityKey});
      |l| == |r| + 1 && forall i :: 0 <= i < |l| ==> l[i] == (r + [ZeroMessage])[i]
  {
    var rest := t - {IdentityKey};
    var below := Ascending(rest.Keys);
    IdentityLast(t);
    ListingByRank(t, below);
    ListingShape(rest);
    var l, r := Listing(t), Listing(rest);
    forall i | 0 <= i < |l|
      ensures l[i] == (r + [ZeroMessage])[i]
    {
      if i < |below| {
        var k := below[i];
        assert l[i] == DecodeOrZero(t[k]);
        assert r[i] == DecodeOrZero(rest[k]);
        assert t[k] == rest[k];
        assert (r + [ZeroMessage])[i] == r[i];
      } else {
        assert i == |r| && l[i] == ZeroMessage;
      }
    }
  }

  /** The listing of a store whose keys, in ascending order, are `below` and then the identity key. */
  lemma ListingByRank(t: Table, below: seq<Bytes>)
    requires StrictlyAscending(below + [IdentityKey])
    requires forall k :: k in below + [IdentityKey] <==> k in t
    ensures var l := Listing(t);
      && |l| == |below| + 1
      && l[|below|] == DecodeOrZero(t[IdentityKey])
      && forall i :: 0 <= i < |below| ==> below[i] in t && l[i] == DecodeOrZero(t[below[i]])
  {
    var ks := below + [IdentityKey];
    ListingByKeys(t, ks);
    assert ks[|below|] == IdentityKey;
    forall i | 0 <= i < |below|
      ensures below[i] in t && Listing(t)[i] == DecodeOrZero(t[below[i]])
    {
      assert ks[i] == below[i];
    }
  }

  /** Saving a message never touches the identity. */
  lemma SaveKeepsIdentity(t: Table, m: Message)
    ensures IdentityOf(WithMessage(t, m)) == IdentityOf(t)
  {
    MessageKeyBelowIdentity(m.timestamp);
  }

  /** After `SaveIdentity(b)` commits, `GetIdentity` gives exactly `b`, and every other entry is as it was. */
  lemma IdentityRoundTrip(t: Table, b: Bytes)
    ensures IdentityOf(t[IdentityKey := b]) == Success(b)
    ensures forall k :: k != IdentityKey ==> (k in t[IdentityKey := b] <==> k in t)
    ensures forall k :: k != IdentityKey && k in t ==> t[IdentityKey := b][k] == t[k]
  {
  }

  /** Two timestamps share a key exactly when their `UnixNano` values are equal. */
  lemma MessageKeyCollision(a: Time, b: Time)
    ensures MessageKey(a) == MessageKey(b) <==> UnixNano(a) == UnixNano(b)
  {
    var fa, fb := FormatInt(UnixNano(a)), FormatInt(UnixNano(b));
    if MessageKey(a) == MessageKey(b) {
      assert fa == MessageKey(a)[|MessagePrefix|..] == MessageKey(b)[|MessagePrefix|..] == fb;
      FormatIntInjective(UnixNano(a), UnixNano(b));
    }
  }

  /** A second message with the same nanosecond leaves only the later one; otherwise both are kept. */
  lemma SaveCollision(t: Table, m1: Message, m2: Message)
    ensures var r := WithMessage(WithMessage(t, m1), m2);
      if UnixNano(m1.timestamp) == UnixNano(m2.timestamp) then r == WithMessage(t, m2)
      else r[MessageKey(m1.timestamp)] == Encode(m1) && r[MessageKey(m2.timestamp)] == Encode(m2)
  {
    MessageKeyCollision(m1.timestamp, m2.timestamp);
  }

  /** For instants in int64 range with equally many digits, key byte order is chronological order. */
  lemma MessageKeyOrder(a: Time, b: Time)
    requires 0 <= a < -Int64Min && 0 <= b < -Int64Min
    requires |DecimalNat(a)| == |DecimalNat(b)|
    ensures LexLt(MessageKey(a), MessageKey(b)) <==> a < b
  {
    DecimalOrder(a, b);
    LexLtCommonPrefix(MessagePrefix, DecimalNat(a), DecimalNat(b));
  }

  /** Without equal digit counts the key order is not chronological: the key of instant 10 sorts before that of instant 9. */
  lemma MessageKeyOrderNeedsWidth()
    ensures 9 < 10 && LexLt(MessageKey(10), MessageKey(9))
  {
    assert DecimalNat(10) == [Fmt.Digit(1), Fmt.Digit(0)];
    assert MessageKey(10) == MessagePrefix + [Fmt.Digit(1), Fmt.Digit(0)];
    assert MessageKey(9) == MessagePrefix + [Fmt.Digit(9)];
    LexLtCommonPrefix(MessagePrefix, [Fmt.Digit(1), Fmt.Digit(0)], [Fmt.Digit(9)]);
  }

  /** A committed `Save` writes exactly one entry, a `msg_` key holding the encoded message, and leaves every other key as it was. */
  lemma WithMessageEffect(t: Table, m: Message)
    ensures var r, k := WithMessage(t, m), MessageKey(m.timestamp);
      && StartsWith(k, MessagePrefix)
      && r.Keys == t.Keys + {k}
      && r[k] == Encode(m)
      && forall j :: j in t && j != k ==> r[j] == t[j]
  {
  }

  /** `GetAll` yields one message per stored key, each the decoded value of the key at its rank. */
  lemma ListingShape(t: Table)
    ensures |Listing(t)| == |t.Keys|
    ensures forall i :: 0 <= i < |t.Keys| ==>
      Ascending(t.Keys)[i] in t && Listing(t)[i] == DecodeOrZero(t[Ascending(t.Keys)[i]])
    ensures t == map[] ==> Listing(t) == []
  {
    AscendingMembers(t.Keys);
    DecodeEachAt(t, Ascending(t.Keys));
  }

  /** A table built from messages saved in chronological order, with every instant of the same width. */
  ghost predicate Chronological(ms: seq<Message>, width: nat) {
    (forall i :: 0 <= i < |ms| ==>
      0 <= ms[i].timestamp < -Int64Min && |DecimalNat(ms[i].timestamp)| == width)
    && forall i, j :: 0 <= i < j < |ms| ==> ms[i].timestamp < ms[j].timestamp
  }

  function KeysOf(ms: seq<Message>): (ks: seq<Bytes>)
    ensures |ks| == |ms|
  {
    seq(|ms|, i requires 0 <= i < |ms| => MessageKey(ms[i].timestamp))
  }

  /** The stored form of each message. */
  function Payloads(ms: seq<Message>): (vs: seq<Bytes>)
    ensures |vs| == |ms|
  {
    seq(|ms|, i requires 0 <= i < |ms| => Encode(ms[i]))
  }

  /** When every transaction commits, saving messages is writing their keys and payloads in turn. */
  lemma {:induction false} SaveEachPutAll(t: Table, ms: seq<Message>, commits: seq<Status>)
    requires |commits| == |ms| && forall i :: 0 <= i < |ms| ==> commits[i].Ok?
    ensures SaveEach(t, ms, commits) == PutAll(t, KeysOf(ms), Payloads(ms))
    decreases |ms|
  {
    if ms != [] {
      var n := |ms| - 1;
      var ks, vs := KeysOf(ms), Payloads(ms);
      assert ks[..n] == KeysOf(ms[..n]);
      assert vs[..n] == Payloads(ms[..n]);
      calc {
        SaveEach(t, ms, commits);
        { assert commits[n].Ok?; }
        WithMessage(SaveEach(t, ms[..n], commits[..n]), ms[n]);
        { SaveEachPutAll(t, ms[..n], commits[..n]); }
        PutAll(t, ks[..n], vs[..n])[ks[n] := vs[n]];
        PutAll(t, ks, vs);
      }
    }
  }

  /** Committed saves of messages with distinct keys: each key holds its own message, other keys are untouched. */
  lemma SaveEachContents(t: Table, ms: seq<Message>, commits: seq<Status>)
    requires |commits| == |ms| && forall i :: 0 <= i < |ms| ==> commits[i].Ok?
    requires forall i, j :: 0 <= i < j < |ms| ==> KeysOf(ms)[i] != KeysOf(ms)[j]
    ensures forall k :: k in SaveEach(t, ms, commits) <==> k in t || k in KeysOf(ms)
    ensures forall i :: 0 <= i < |ms| ==> SaveEach(t, ms, commits)[KeysOf(ms)[i]] == Encode(ms[i])
    ensures forall k :: k in t && k !in KeysOf(ms) ==> SaveEach(t, ms, commits)[k] == t[k]
  {
    SaveEachPutAll(t, ms, commits);
    PutAllContents(t, KeysOf(ms), Payloads(ms));
  }

  lemma ChronologicalKeysAscending(ms: seq<Message>, width: nat)
    requires Chronological(ms, width)
    ensures StrictlyAscending(KeysOf(ms))
    ensures forall i, j :: 0 <= i < j < |ms| ==> KeysOf(ms)[i] != KeysOf(ms)[j]
  {
    forall i, j | 0 <= i < j < |ms|
      ensures LexLt(KeysOf(ms)[i], KeysOf(ms)[j])
    {
      MessageKeyOrder(ms[i].timestamp, ms[j].timestamp);
    }
  }

  /** A table whose keys are exactly the strictly ascending `ks` is listed as the decoded values under `ks`, in that order. */
  lemma ListingByKeys(t: Table, ks: seq<Bytes>)
    requires StrictlyAscending(ks)
    requires forall k :: k in ks <==> k in t
    ensures |Listing(t)| == |ks|
    ensures forall i :: 0 <= i < |ks| ==> Listing(t)[i] == DecodeOrZero(t[ks[i]])
  {
    AscendingUnique(ks, t.Keys);
    DecodeEachAt(t, ks);
  }

  /** Chronological replay: messages saved in time order into an empty log are listed back in that order. */
  lemma Replay(ms: seq<Message>, width: nat, commits: seq<Status>)
    requires Chronological(ms, width)
    requires |commits| == |ms| && forall i :: 0 <= i < |ms| ==> commits[i].Ok?
    ensures Listing(SaveEach(map[], ms, commits)) == ms
  {
    ChronologicalKeysAscending(ms, width);
    SaveEachContents(map[], ms, commits);
    ReplayListing(SaveEach(map[], ms, commits), ms);
  }

  /** A table whose keys, in ascending order, are those of `ms`, each holding its message's encoding, lists `ms`. */
  lemma ReplayListing(t: Table, ms: seq<Message>)
    requires StrictlyAscending(KeysOf(ms))
    requires forall k :: k in t <==> k in KeysOf(ms)
    requires forall i :: 0 <= i < |ms| ==> t[KeysOf(ms)[i]] == Encode(ms[i])
    ensures Listing(t) == ms
  {
    ReplayListingAt(t, ms);
  }

  /** `ReplayListing`, position by position. */
  lemma ReplayListingAt(t: Table, ms: seq<Message>)
    requires StrictlyAscending(KeysOf(ms))
    requires forall k :: k in t <==> k in KeysOf(ms)
    requires forall i :: 0 <= i < |ms| ==> t[KeysOf(ms)[i]] == Encode(ms[i])
    ensures var l := Listing(t);
      |l| == |ms| && forall i :: 0 <= i < |l| ==> l[i] == ms[i]
  {
    ListingByKeys(t, KeysOf(ms));
    forall i | 0 <= i < |ms|
      ensures Listing(t)[i] == ms[i]
    {
      ReplayEntry(t, ms, i);
    }
  }

  /** The decoded value at one rank of such a table. */
  lemma ReplayEntry(t: Table, ms: seq<Message>, i: nat)
    requires i < |ms|
    requires forall k :: k in t <==> k in KeysOf(ms)
    requires forall j :: 0 <= j < |ms| ==> t[KeysOf(ms)[j]] == Encode(ms[j])
    ensures KeysOf(ms)[i] in t && DecodeOrZero(t[KeysOf(ms)[i]]) == ms[i]
  {
    assert KeysOf(ms)[i] in KeysOf(ms);
    DecodeOrZeroEncode(ms[i]);
  }

  /** The identity key sorts after the keys of chronologically saved messages and is none of them. */
  lemma IdentityAfterMessages(ms: seq<Message>, width: nat)
    requires Chronological(ms, width)
    ensures StrictlyAscending(KeysOf(ms) + [IdentityKey])
    ensures IdentityKey !in KeysOf(ms)
  {
    var ks := KeysOf(ms) + [IdentityKey];
    ChronologicalKeysAscending(ms, width);
    forall i, j | 0 <= i < j < |ks|
      ensures LexLt(ks[i], ks[j])
    {
      if j == |ms| {
        MessageKeyBelowIdentity(ms[i].timestamp);
      }
    }
    forall i | 0 <= i < |ms|
      ensures KeysOf(ms)[i] != IdentityKey
    {
      MessageKeyBelowIdentity(ms[i].timestamp);
    }
  }

  /**
   * With the identity stored, the replay ends in one extra zero message: the
   * identity key sorts after every message key and its bytes do not decode.
   */
  lemma ReplayAfterIdentity(ms: seq<Message>, width: nat, commits: seq<Status>, privKey: Bytes)
    requires Chronological(ms, width)
    requires |commits| == |ms| && forall i :: 0 <= i < |ms| ==> commits[i].Ok?
    requires Decode(privKey) == None
    ensures Listing(SaveEach(map[IdentityKey := privKey], ms, commits)) == ms + [ZeroMessage]
  {
    ReplayAfterIdentityAt(ms, width, commits, privKey);
  }

  /** The table of a chronological replay on top of the identity: its keys in ascending order and what each holds. */
  lemma IdentityReplayTable(ms: seq<Message>, width: nat, commits: seq<Status>, privKey: Bytes)
    requires Chronological(ms, width)
    requires |commits| == |ms| && forall i :: 0 <= i < |ms| ==> commits[i].Ok?
    ensures var t, ks := SaveEach(map[IdentityKey := privKey], ms, commits), KeysOf(ms) + [IdentityKey];
      && StrictlyAscending(ks)
      && (forall k :: k in ks <==> k in t)
      && (forall i :: 0 <= i < |ms| ==> t[ks[i]] == Encode(ms[i]))
      && t[IdentityKey] == privKey
  {
    ChronologicalKeysAscending(ms, width);
    IdentityAfterMessages(ms, width);
    var base := map[IdentityKey := privKey];
    SaveEachContents(base, ms, commits);
    var t := SaveEach(base, ms, commits);
    assert IdentityKey in base && t[IdentityKey] == privKey;
    IdentityReplayKeys(t, ms);
  }

  /** A table holding the identity and exactly the keys of `ms` besides, each with its message's encoding. */
  lemma IdentityReplayKeys(t: Table, ms: seq<Message>)
    requires forall k :: k in t <==> k == IdentityKey || k in KeysOf(ms)
    requires forall i :: 0 <= i < |ms| ==> t[KeysOf(ms)[i]] == Encode(ms[i])
    ensures var ks := KeysOf(ms) + [IdentityKey];
      && (forall k :: k in ks <==> k in t)
      && (forall i :: 0 <= i < |ms| ==> t[ks[i]] == Encode(ms[i]))
  {
    var ks := KeysOf(ms) + [IdentityKey];
    forall k
      ensures k in ks <==> k in t
    {
      assert k in ks <==> k in KeysOf(ms) || k == IdentityKey;
    }
    forall i | 0 <= i < |ms|
      ensures t[ks[i]] == Encode(ms[i])
    {
      assert ks[i] == KeysOf(ms)[i];
    }
  }

  /** `ReplayAfterIdentity`, position by position. */
  lemma ReplayAfterIdentityAt(ms: seq<Message>, width: nat, commits: seq<Status>, privKey: Bytes)
    requires Chronological(ms, width)
    requires |commits| == |ms| && forall i :: 0 <= i < |ms| ==> commits[i].Ok?
    requires Decode(privKey) == None
    ensures var l := Listing(SaveEach(map[IdentityKey := privKey], ms, commits));
      |l| == |ms| + 1 && forall i :: 0 <= i < |l| ==> l[i] == (ms + [ZeroMessage])[i]
  {
    IdentityReplayTable(ms, width, commits, privKey);
    ReplayTableListing(SaveEach(map[IdentityKey := privKey], ms, commits), ms, privKey);
  }

  /** The listing of a table whose ascending keys are those of `ms` and then the identity, holding undecodable bytes. */
  lemma ReplayTableListing(t: Table, ms: seq<Message>, privKey: Bytes)
    requires Decode(privKey) == None
    requires var ks := KeysOf(ms) + [IdentityKey];
      && StrictlyAscending(ks)
      && (forall k :: k in ks <==> k in t)
      && (forall i :: 0 <= i < |ms| ==> t[ks[i]] == Encode(ms[i]))
      && t[IdentityKey] == privKey
    ensures var l := Listing(t);
      |l| == |ms| + 1 && forall i :: 0 <= i < |l| ==> l[i] == (ms + [ZeroMessage])[i]
  {
    var ks := KeysOf(ms) + [IdentityKey];
    ListingByKeys(t, ks);
    forall i | 0 <= i < |ks|
      ensures Listing(t)[i] == (ms + [ZeroMessage])[i]
    {
      ReplayTableEntry(t, ms, privKey, i);
    }
  }

  /** The decoded value at one rank of such a table. */
  lemma ReplayTableEntry(t: Table, ms: seq<Message>, privKey: Bytes, i: nat)
    requires i <= |ms| && Decode(privKey) == None
    requires var ks := KeysOf(ms) + [IdentityKey];
      && (forall k :: k in ks <==> k in t)
      && (forall j :: 0 <= j < |ms| ==> t[ks[j]] == Encode(ms[j]))
      && t[IdentityKey] == privKey
    ensures var ks := KeysOf(ms) + [IdentityKey];
      ks[i] in t && DecodeOrZero(t[ks[i]]) == (ms + [ZeroMessage])[i]
  {
    var ks := KeysOf(ms) + [IdentityKey];
    assert ks[i] in ks;
    if i < |ms| {
      DecodeOrZeroEncode(ms[i]);
      assert (ms + [ZeroMessage])[i] == ms[i];
    } else {
      assert ks[i] == IdentityKey;
    }
  }
}
