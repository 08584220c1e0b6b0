/**
 * The chat front end's own logic: loading or creating the node identity at
 * startup, and the console loop that turns each input line into either a
 * connect request or a chat message.
 *
 * Key generation, key (un)marshalling, multiaddr parsing and the connection
 * attempt itself are foreign: a freshly generated key arrives as its
 * marshalled bytes, and a connect request is recorded as the address text.
 */
module ChatMain {
  import opened Octets
  import opened Domain
  import opened OrderedTable
  import opened Repository
  import opened Usecase

  /** The console command prefix, trailing space included. */
  const ConnectPrefix: Bytes := FromString("/connect ")

  /** What one console line asks for. */
  datatype Command = Connect(addr: Bytes) | Say(text: Bytes)

  /**
   * A line with the connect prefix connects to the rest of the line; any other
   * line is said. A line is sent as chat exactly when it lacks the prefix, and
   * then unchanged.
   */
  function Dispatch(line: Bytes): (c: Command)
    ensures c.Say? <==> !StartsWith(line, ConnectPrefix)
    ensures c.Say? ==> c.text == line
    ensures c.Connect? ==> line == ConnectPrefix + c.addr
  {
    if StartsWith(line, ConnectPrefix) then
      assert line == line[..|ConnectPrefix|] + line[|ConnectPrefix|..];
      Connect(line[|ConnectPrefix|..])
    else Say(line)
  }

  /** The line a command is read from. */
  function Line(c: Command): (line: Bytes) {
    match c
    case Connect(addr) => ConnectPrefix + addr
    case Say(text) => text
  }

  /** Dispatch loses nothing: a connect keeps everything after exactly one prefix, a say keeps the whole line. */
  lemma LineDispatch(line: Bytes)
    ensures Line(Dispatch(line)) == line
  {
    if StartsWith(line, ConnectPrefix) {
      assert line == line[..|ConnectPrefix|] + line[|ConnectPrefix|..];
    }
  }

  /** Any line made of the prefix and an address connects to that address, even one that starts with the prefix again. */
  lemma DispatchConnect(addr: Bytes)
    ensures Dispatch(ConnectPrefix + addr) == Connect(addr)
  {
    assert (ConnectPrefix + addr)[..|ConnectPrefix|] == ConnectPrefix;
  }

  /** The command word without its trailing space is ordinary chat. */
  lemma BareConnectIsSaid()
    ensures Dispatch(FromString("/connect")) == Say(FromString("/connect"))
  {
    assert |FromString("/connect")| < |ConnectPrefix|;
  }

  /** The key a startup runs with and the table it leaves behind. */
  datatype Startup = Startup(key: Bytes, table: Table)

  /**
   * Load or create: a stored identity is used as it is; otherwise the freshly
   * generated key is used and written with `SaveIdentity`, whose outcome is
   * not looked at.
   */
  function LoadOrCreate(t: Table, generated: Bytes, commit: Status): (s: Startup)
    ensures IdentityKey in s.table <==> IdentityKey in t || commit.Ok?
    ensures IdentityKey in s.table ==> s.table[IdentityKey] == s.key
  {
    match IdentityOf(t)
    case Success(stored) => Startup(stored, t)
    case Failure(_) => Startup(generated, if commit.Ok? then t[IdentityKey := generated] else t)
  }

  /** Startup's identity step against the store. */
  method LoadOrCreateIdentity(repo: BadgerRepo, generated: Bytes, commit: Status) returns (key: Bytes)
    modifies repo
    ensures Startup(key, repo.table) == LoadOrCreate(old(repo.table), generated, commit)
  {
    var stored := repo.GetIdentity();
    if stored.Failure? {
      key := generated;
      var ignored := repo.SaveIdentity(generated, commit);
    } else {
      key := stored.value;
    }
  }

  /**
   * What one startup does: it uses the stored key when there is one and then
   * writes nothing, and otherwise uses the generated key; message entries are
   * never touched.
   */
  lemma LoadOrCreateEffect(t: Table, generated: Bytes, commit: Status)
    ensures var s := LoadOrCreate(t, generated, commit);
      && (IdentityKey in t ==> s == Startup(t[IdentityKey], t))
      && (IdentityKey !in t ==> s.key == generated && (s.table == t <==> commit.Err?))
      && (forall k :: k != IdentityKey ==> (k in s.table <==> k in t))
      && (forall k :: k != IdentityKey && k in t ==> s.table[k] == t[k])
  {
    var s := LoadOrCreate(t, generated, commit);
    if IdentityKey !in t && commit.Ok? {
      IdentityRoundTrip(t, generated);
      assert IdentityKey in s.table;
    }
  }

  /** Once an identity is written, every later startup runs with the same key and writes nothing. */
  lemma StartupIdempotent(t: Table, g1: Bytes, c1: Status, g2: Bytes, c2: Status)
    requires c1.Ok?
    ensures var first := LoadOrCreate(t, g1, c1);
      LoadOrCreate(first.table, g2, c2) == first
  {
    if IdentityKey !in t {
      IdentityRoundTrip(t, g1);
    }
  }

  /** A lost identity write makes the next startup pick a different generated key: the node's ID changes. */
  lemma LostIdentityWrite(t: Table, g1: Bytes, c1: Status, g2: Bytes, c2: Status)
    requires IdentityKey !in t && c1.Err?
    ensures LoadOrCreate(t, g1, c1).key == g1
    ensures LoadOrCreate(LoadOrCreate(t, g1, c1).table, g2, c2).key == g2
  {
  }

  /** The clock reading and the store and topic outcomes that a line meets if it is sent. */
  datatype Tick = Tick(now: Time, commit: Status, topic: Status)

  /** A message the console sends, with its store outcome. */
  datatype Send = Send(message: Message, commit: Status)

  /** The name typed first; input that ends at once leaves it empty. */
  function Username(input: seq<Bytes>): (name: Bytes) {
    if input == [] then [] else input[0]
  }

  /** The lines after the name, each dispatched in turn. */
  function Lines(input: seq<Bytes>): (lines: seq<Bytes>)
    ensures |lines| == if input == [] then 0 else |input| - 1
  {
    if input == [] then [] else input[1..]
  }

  /** The addresses the connect lines name, in order. */
  function Dials(lines: seq<Bytes>): (addrs: seq<Bytes>)
    decreases |lines|
  {
    if lines == [] then []
    else
      var n := |lines| - 1;
      Dials(lines[..n]) + DialOf(lines[n])
  }

  /** The dial one line asks for, if any. */
  function DialOf(line: Bytes): (addrs: seq<Bytes>) {
    if Dispatch(line).Connect? then [Dispatch(line).addr] else []
  }

  /** The send one line asks for, if any, stamped with the line's clock reading. */
  function SendOf(user: Bytes, line: Bytes, tick: Tick): (ss: seq<Send>) {
    if Dispatch(line).Say? then [Send(Message(user, Dispatch(line).text, tick.now), tick.commit)] else []
  }

  /** The messages the other lines send, each stamped with its own clock reading. */
  function Outgoing(user: Bytes, lines: seq<Bytes>, ticks: seq<Tick>): (ss: seq<Send>)
    requires |ticks| == |lines|
    decreases |lines|
  {
    if lines == [] then []
    else
      var n := |lines| - 1;
      Outgoing(user, lines[..n], ticks[..n]) + SendOf(user, lines[n], ticks[n])
  }

  function MessagesOf(ss: seq<Send>): (ms: seq<Message>)
    ensures |ms| == |ss|
  {
    seq(|ss|, i requires 0 <= i < |ss| => ss[i].message)
  }

  function CommitsOf(ss: seq<Send>): (cs: seq<Status>)
    ensures |cs| == |ss|
  {
    seq(|ss|, i requires 0 <= i < |ss| => ss[i].commit)
  }

  /** The next line of the console, read at position `i`. */
  lemma ConsoleStep(user: Bytes, lines: seq<Bytes>, ticks: seq<Tick>, i: nat)
    requires |ticks| == |lines| && i < |lines|
    ensures Dials(lines[..i + 1]) == Dials(lines[..i]) + DialOf(lines[i])
    ensures Outgoing(user, lines[..i + 1], ticks[..i + 1]) == Outgoing(user, lines[..i], ticks[..i]) + SendOf(user, lines[i], ticks[i])
  {
    assert lines[..i + 1][..i] == lines[..i];
    assert ticks[..i + 1][..i] == ticks[..i];
  }

  /** One more send extends the effects, the published payloads and the saves by that message alone. */
  lemma SendStep(t: Table, ss: seq<Send>, s: Send)
    ensures var ms, ms' := MessagesOf(ss), MessagesOf(ss + [s]);
      && ms' == ms + [s.message]
      && Sent(ms') == Sent(ms) + [Saved(s.message), Published(s.message)]
      && Payloads(ms') == Payloads(ms) + [Codec.Encode(s.message)]
      && SaveEach(t, ms', CommitsOf(ss + [s])) ==
        if s.commit.Ok? then WithMessage(SaveEach(t, ms, CommitsOf(ss)), s.message) else SaveEach(t, ms, CommitsOf(ss))
  {
    var ms, ms' := MessagesOf(ss), MessagesOf(ss + [s]);
    assert ms' == ms + [s.message];
    assert ms'[..|ss|] == ms;
    assert CommitsOf(ss + [s])[..|ss|] == CommitsOf(ss);
  }

  /** The effects, payloads and table that sending `sent` on top of the given starting state leaves. */
  ghost predicate SentOnTop(chat: ChatUseCase, trace0: seq<Effect>, published0: seq<Bytes>, table0: Table, sent: seq<Send>)
    reads chat, chat.repo, chat.net
  {
    var ms := MessagesOf(sent);
    && chat.trace == trace0 + Sent(ms)
    && chat.net.published == published0 + Payloads(ms)
    && chat.repo.table == SaveEach(table0, ms, CommitsOf(sent))
  }

  /** The console's send branch: one `SendMessage` whose publish outcome is not looked at. */
  method SendLine(chat: ChatUseCase, username: Bytes, text: Bytes, tick: Tick,
             ghost trace0: seq<Effect>, ghost published0: seq<Bytes>, ghost table0: Table, ghost sent: seq<Send>)
    requires SentOnTop(chat, trace0, published0, table0, sent)
    modifies chat, chat.repo, chat.net
    ensures SentOnTop(chat, trace0, published0, table0, sent + [Send(Message(username, text, tick.now), tick.commit)])
  {
    ghost var m := Message(username, text, tick.now);
    ghost var effects, payloads := Sent(MessagesOf(sent)), Payloads(MessagesOf(sent));
    var err := chat.SendMessage(username, text, tick.now, tick.commit, tick.topic);
    SendStep(table0, sent, Send(m, tick.commit));
    AppendAssociative(trace0, effects, [Saved(m), Published(m)]);
    AppendAssociative(published0, payloads, [Codec.Encode(m)]);
  }

  /**
   * The console loop after the name has been read: a connect line is a dial
   * and nothing else; any other line is sent with the name as sender. Send
   * and dial outcomes are shown to the user only and do not stop the loop.
   */
  method Console(chat: ChatUseCase, input: seq<Bytes>, ticks: seq<Tick>) returns (dialed: seq<Bytes>)
    requires |ticks| == |Lines(input)|
    modifies chat, chat.repo, chat.net
    ensures dialed == Dials(Lines(input))
    ensures var ms := MessagesOf(Outgoing(Username(input), Lines(input), ticks));
      && chat.trace == old(chat.trace) + Sent(ms)
      && chat.net.published == old(chat.net.published) + Payloads(ms)
      && chat.repo.table == SaveEach(old(chat.repo.table), ms, CommitsOf(Outgoing(Username(input), Lines(input), ticks)))
  {
    dialed := [];
    if input == [] {
      return;
    }
    var username := input[0];
    var lines := input[1..];
    ghost var sent: seq<Send> := [];
    var i := 0;
    while i < |lines|
      invariant 0 <= i <= |lines|
      invariant dialed == Dials(lines[..i])
      invariant sent == Outgoing(username, lines[..i], ticks[..i])
      invariant SentOnTop(chat, old(chat.trace), old(chat.net.published), old(chat.repo.table), sent)
      decreases |lines| - i
    {
      ConsoleStep(username, lines, ticks, i);
      var command := Dispatch(lines[i]);
      if command.Connect? {
        dialed := dialed + [command.addr];
      } else {
        var tick := ticks[i];
        SendLine(chat, username, command.text, tick, old(chat.trace), old(chat.net.published), old(chat.repo.table), sent);
        sent := sent + [Send(Message(username, command.text, tick.now), tick.commit)];
      }
      i := i + 1;
    }
    assert lines[..i] == lines && ticks[..i] == ticks;
  }

  /** Every line after the name is either dialled or sent, never both and never neither. */
  lemma {:induction false} LinesPartition(user: Bytes, lines: seq<Bytes>, ticks: seq<Tick>)
    requires |ticks| == |lines|
    ensures |Dials(lines)| + |Outgoing(user, lines, ticks)| == |lines|
    decreases |lines|
  {
    if lines != [] {
      var n := |lines| - 1;
      LinesPartition(user, lines[..n], ticks[..n]);
    }
  }

  /** Every sent message carries the name as sender, and its content is a line without the connect prefix. */
  lemma {:induction false} OutgoingFromUser(user: Bytes, lines: seq<Bytes>, ticks: seq<Tick>)
    requires |ticks| == |lines|
    ensures forall s :: s in Outgoing(user, lines, ticks) ==>
      s.message.sender == user && !StartsWith(s.message.content, ConnectPrefix) && s.message.content in lines
    decreases |lines|
  {
    if lines != [] {
      var n := |lines| - 1;
      OutgoingFromUser(user, lines[..n], ticks[..n]);
      assert forall l :: l in lines[..n] ==> l in lines;
    }
  }
}
