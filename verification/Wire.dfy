/** What a session writes to its socket: packets and one-line replies (src/socket/consumer_handler.c:17-68,
    src/socket/server_event_handler.c:96-162). */
module Wire {
  import opened Machine
  import opened Framing

  const MAGIC: uint32 := 0x5041434B
  const PACKET_HEADER := 8

  function PacketBytes(payload: Event): (b: bytes)
    ensures |b| == PACKET_HEADER + |payload|
  {
    EncodeU32(MAGIC) + EncodeU32(|payload|) + payload
  }

  const BRACE: byte := 0x7B
  const NEWLINE: byte := 0x0A

  /** A reply: starts with a brace and ends at its only newline. */
  predicate IsLine(b: bytes) {
    |b| >= 2 && b[0] == BRACE && b[|b| - 1] == NEWLINE && forall i :: 0 <= i < |b| - 1 ==> b[i] != NEWLINE
  }

  type Reply = b: bytes | IsLine(b) witness [BRACE, NEWLINE]

  datatype Output = APacket(payload: Event) | ALine(reply: Reply)

  function Code(o: Output): (b: bytes)
    ensures |b| >= 2
  {
    match o
    case APacket(p) => PacketBytes(p)
    case ALine(r) => r
  }

  function Stream(os: seq<Output>): bytes {
    if os == [] then [] else Code(os[0]) + Stream(os[1..])
  }

  lemma PacketHeader(p: Event, rest: bytes)
    ensures
      var s := PacketBytes(p) + rest;
      && s[0] == 0x4B
      && s[4..8] == EncodeU32(|p|)
      && s[8..8 + |p|] == p
      && s[8 + |p|..] == rest
  {
  }

  lemma LineStart(r: Reply, rest: bytes)
    ensures (r + rest)[0] == BRACE
  {
  }

  /** No output is the beginning of another one. */
  lemma CodesArePrefixFree(x: Output, y: Output, s: bytes, t: bytes)
    requires Code(x) + s == Code(y) + t
    ensures x == y && s == t
  {
    match (x, y)
    case (APacket(p), APacket(q)) =>
      PacketHeader(p, s);
      PacketHeader(q, t);
      DecodeEncode(|p|);
      DecodeEncode(|q|);
    case (ALine(a), ALine(b)) =>
      var u := a + s;
      assert u[|a| - 1] == NEWLINE && u[|b| - 1] == NEWLINE;
      assert |a| == |b|;
      assert u[..|a|] == a && u[..|b|] == b;
      assert u[|a|..] == s && u[|b|..] == t;
    case (APacket(p), ALine(b)) =>
      LineStart(b, t);
      PacketHeader(p, s);
    case (ALine(a), APacket(q)) =>
      LineStart(a, s);
      PacketHeader(q, t);
  }

  /** A session's output is uniquely decodable: two different sequences of packets and replies never
      give the same bytes. */
  lemma {:induction false} StreamIsInjective(a: seq<Output>, b: seq<Output>)
    requires Stream(a) == Stream(b)
    ensures a == b
    decreases |a|
  {
    if a != [] && b != [] {
      CodesArePrefixFree(a[0], b[0], Stream(a[1..]), Stream(b[1..]));
      StreamIsInjective(a[1..], b[1..]);
      assert a == [a[0]] + a[1..] && b == [b[0]] + b[1..];
    }
  }

  function Status(status: string, message: string): string {
    "{\"status\":\"" + status + "\",\"message\":\"" + message + "\"}"
  }

  function Error(text: string): string {
    "{\"error\":\"" + text + "\"}"
  }

  /** The replies of the command handlers. */
  datatype Answer = NotReady | NoData | NoPacket | NotSet | Acked | NotAcked | GroupSet | TopicSet | Unknown | Goodbye

  function Hint(): string {
    "Group or topic not set." + " Use SET_GROUP and " + "SET_TOPIC commands first"
  }

  /** The words of a reply. */
  function Words(a: Answer): string {
    match a
    case NotReady => Hint()
    case NoData => "No more data available"
    case NoPacket => "No packet available"
    case NotSet => "Group or topic not set"
    case Acked => "Packet acknowledged"
    case NotAcked => "Failed to acknowledge" + " packet"
    case GroupSet => "Group set"
    case TopicSet => "Topic set"
    case Unknown => "Unknown command"
    case Goodbye => "goodbye"
  }

  /** A reply's text, without its final newline. */
  function Text(a: Answer): string {
    match a
    case NotReady | NotSet | NotAcked | Unknown => Error(Words(a))
    case NoData => Status("no_data", Words(a))
    case NoPacket => Status("no_packet", Words(a))
    case Acked | GroupSet | TopicSet => Status("success", Words(a))
    case Goodbye => "{\"status\":\"" + Words(a) + "\"}"
  }

  predicate Clean(s: string) {
    forall c :: c in s ==> c != '\n' && c as int < 128
  }

  lemma JoinIsClean(a: string, b: string)
    requires Clean(a) && Clean(b)
    ensures Clean(a + b)
  {
  }

  lemma HintIsClean()
    ensures Clean(Hint())
  {
    HintEndIsClean();
    JoinIsClean("Group or topic not set.", " Use SET_GROUP and ");
    JoinIsClean("Group or topic not set." + " Use SET_GROUP and ", "SET_TOPIC commands first");
  }

  lemma HintEndIsClean()
    ensures Clean("SET_TOPIC commands first")
  {
  }

  lemma WordsAreClean(a: Answer)
    ensures Clean(Words(a))
  {
    if a == NotReady {
      HintIsClean();
    } else if a.NoData? || a.NoPacket? || a.NotSet? || a.Acked? {
      QueueWordsAreClean(a);
    }
  }

  lemma QueueWordsAreClean(a: Answer)
    requires a.NoData? || a.NoPacket? || a.NotSet? || a.Acked?
    ensures Clean(Words(a))
  {
  }

  lemma TextIsClean(words: string, text: string)
    requires Clean(words)
    requires text == Error(words) || text == Status("no_data", words) || text == Status("no_packet", words)
          || text == Status("success", words) || text == "{\"status\":\"" + words + "\"}"
    ensures Clean(text) && |text| > 0 && text[0] == '{'
  {
  }

  function Ascii(s: string): (b: bytes)
    ensures |b| == |s|
    ensures forall i :: 0 <= i < |s| ==> b[i] == s[i] as int % 256
  {
    seq(|s|, i requires 0 <= i < |s| => s[i] as int % 256)
  }

  /** The bytes that a handler sends as its reply. */
  function ReplyBytes(a: Answer): bytes {
    Ascii(Text(a)) + [NEWLINE]
  }

  lemma CleanTextIsLine(s: string)
    requires Clean(s) && |s| > 0 && s[0] == '{'
    ensures IsLine(Ascii(s) + [NEWLINE])
  {
    assert s[0] as int == 0x7B;
    forall i | 0 <= i < |s| ensures (Ascii(s) + [NEWLINE])[i] != NEWLINE {
      assert s[i] in s;
      assert s[i] != '\n' ==> s[i] as int != 10;
    }
  }

  /** Every reply of the handlers is one line, so `StreamIsInjective` covers replies too. */
  lemma RepliesAreLines(a: Answer)
    ensures IsLine(ReplyBytes(a))
  {
    WordsAreClean(a);
    TextIsClean(Words(a), Text(a));
    CleanTextIsLine(Text(a));
  }

  lemma WordLengths(a: Answer)
    ensures
      |Words(a)| == match a
                    case NotReady => 66 case NoData => 22 case NoPacket => 19 case NotSet => 22 case Acked => 19
                    case NotAcked => 28 case GroupSet => 9 case TopicSet => 9 case Unknown => 15 case Goodbye => 7
  {
  }

  lemma TextLengths(a: Answer)
    ensures
      |Text(a)| == match a
                   case NotReady => 78 case NoData => 55 case NoPacket => 54 case NotSet => 34 case Acked => 52
                   case NotAcked => 40 case GroupSet => 42 case TopicSet => 42 case Unknown => 27 case Goodbye => 20
  {
    WordLengths(a);
  }

  lemma SetRepliesDiffer()
    ensures ReplyBytes(GroupSet)[31] == 'G' as int && ReplyBytes(TopicSet)[31] == 'T' as int
  {
    var start := "{\"status\":\"" + "success" + "\",\"message\":\"";
    assert |start| == 31;
    assert Text(GroupSet) == start + ("Group set" + "\"}") && Text(TopicSet) == start + ("Topic set" + "\"}");
    assert Text(GroupSet)[31] == "Group set"[0] && Text(TopicSet)[31] == "Topic set"[0];
  }

  /** A client can tell the replies apart. */
  lemma RepliesDiffer(a: Answer, b: Answer)
    requires a != b
    ensures ReplyBytes(a) != ReplyBytes(b)
  {
    TextLengths(a);
    TextLengths(b);
    SetRepliesDiffer();
  }

  /** A connection; `out` is every byte that `send` has accepted. */
  class Socket {
    var out: bytes

    constructor ()
      ensures out == []
    {
      out := [];
    }

    /** `send`: the network takes the first `taken` bytes, or fails when that is negative. */
    method Send(b: bytes, taken: int) returns (sent: int)
      modifies this
      ensures taken < 0 ==> sent == -1 && out == old(out)
      ensures taken >= 0 ==> sent == Min(taken, |b|) && out == old(out) + b[..sent]
    {
      if taken < 0 {
        return -1;
      }
      sent := Min(taken, |b|);
      out := out + b[..sent];
    }

    /** A handler's reply; its `send` is taken to go through. */
    method Reply(a: Answer)
      modifies this
      ensures out == old(out) + ReplyBytes(a)
    {
      var b := ReplyBytes(a);
      var sent := Send(b, |b|);
    }
  }

  /** How much of `left` bytes the network takes: pieces up to the first that is not positive. */
  function TakenOf(pieces: seq<int>, left: nat): (n: nat)
    ensures n <= left
    decreases |pieces|
  {
    if left == 0 || pieces == [] || pieces[0] <= 0 then 0
    else if pieces[0] >= left then left
    else pieces[0] + TakenOf(pieces[1..], left - pieces[0])
  }

  /** The network takes the header at once and then the whole payload in positive pieces. */
  predicate Whole(payload: Event, header: int, pieces: seq<int>) {
    header >= PACKET_HEADER && TakenOf(pieces, |payload|) == |payload|
  }

  function Total(pieces: seq<int>): int {
    if pieces == [] then 0 else pieces[0] + Total(pieces[1..])
  }

  /** The first `k` pieces are positive and together cover the payload. */
  predicate Covers(pieces: seq<int>, k: nat, left: nat) {
    k <= |pieces| && (forall j :: 0 <= j < k ==> pieces[j] > 0) && Total(pieces[..k]) >= left
  }

  lemma {:induction false} TakesAllExactly(pieces: seq<int>, left: nat)
    ensures TakenOf(pieces, left) == left <==> exists k: nat :: Covers(pieces, k, left)
    decreases |pieces|
  {
    if left == 0 {
      assert Covers(pieces, 0, left);
    } else if pieces != [] && pieces[0] > 0 {
      var rest := pieces[1..];
      var after := if pieces[0] >= left then 0 else left - pieces[0];
      TakesAllExactly(rest, after);
      forall k: nat | k <= |rest| ensures Total(pieces[..k + 1]) == pieces[0] + Total(rest[..k]) {
        assert pieces[..k + 1][1..] == rest[..k];
      }
      if after == 0 {
        assert Total(rest[..0]) == 0 && Covers(pieces, 1, left);
      } else if k: nat :| Covers(rest, k, after) {
        assert Covers(pieces, k + 1, left);
      }
      if k: nat :| Covers(pieces, k, left) {
        assert after == 0 || (k > 0 && Covers(rest, k - 1, after));
      }
    } else {
      forall k: nat ensures !Covers(pieces, k, left) {
        if k > 0 && k <= |pieces| {
          assert pieces[0] <= 0;
        }
      }
    }
  }

  /** A packet goes out whole if and only if the network takes its 8-byte header at once, and then positive pieces that
      together cover the payload. */
  lemma WholeExactly(payload: Event, header: int, pieces: seq<int>)
    ensures Whole(payload, header, pieces) <==> header >= 8 && exists k: nat :: Covers(pieces, k, |payload|)
  {
    TakesAllExactly(pieces, |payload|);
  }

  /** Otherwise what goes out stops behind the pieces before the first that is not positive. */
  lemma {:induction false} CutExactly(pieces: seq<int>, k: nat, left: nat)
    requires k <= |pieces| && (forall j :: 0 <= j < k ==> pieces[j] > 0) && (k == |pieces| || pieces[k] <= 0)
    requires Total(pieces[..k]) < left
    ensures TakenOf(pieces, left) == Total(pieces[..k])
    decreases k
  {
    if k > 0 {
      var rest := pieces[1..];
      assert pieces[..k][1..] == rest[..k - 1];
      PositiveTotal(rest, k - 1);
      CutExactly(rest, k - 1, left - pieces[0]);
    }
  }

  lemma {:induction false} PositiveTotal(pieces: seq<int>, k: nat)
    requires k <= |pieces| && forall j :: 0 <= j < k ==> pieces[j] > 0
    ensures Total(pieces[..k]) >= 0
    decreases k
  {
    if k > 0 {
      assert pieces[..k][1..] == pieces[1..][..k - 1];
      PositiveTotal(pieces[1..], k - 1);
    }
  }

  /** A cut packet reaches the wire up to there, and nothing of what is behind it. */
  lemma CutPacketExactly(payload: Event, header: int, pieces: seq<int>, k: nat)
    requires k <= |pieces| && (forall j :: 0 <= j < k ==> pieces[j] > 0) && (k == |pieces| || pieces[k] <= 0)
    requires Total(pieces[..k]) < |payload|
    ensures Total(pieces[..k]) >= 0
    ensures SentBytes(payload, header, pieces)
         == PacketBytes(payload)[..if header < 8 then Max(header, 0) else 8 + Total(pieces[..k])]
  {
    PositiveTotal(pieces, k);
    CutExactly(pieces, k, |payload|);
  }

  /** A packet on the wire: `KCAP`, the little-endian length, the payload. */
  lemma PacketLayout(payload: Event)
    ensures
      var b := PacketBytes(payload);
      && |b| == 8 + |payload|
      && b[..4] == Ascii("KCAP")
      && DecodeU32(b[4..8]) == |payload|
      && b[8..] == payload
  {
    DecodeEncode(|payload|);
    assert PacketBytes(payload)[4..8] == EncodeU32(|payload|);
    assert "KCAP"[0] as int == 0x4B && "KCAP"[1] as int == 0x43 && "KCAP"[2] as int == 0x41 && "KCAP"[3] as int == 0x50;
  }

  /** What `send_packet_to_consumer` puts on the wire. */
  function SentBytes(payload: Event, header: int, pieces: seq<int>): (b: bytes)
    ensures b <= PacketBytes(payload)
  {
    if header < PACKET_HEADER then PacketBytes(payload)[..Max(header, 0)]
    else PacketBytes(payload)[..PACKET_HEADER + TakenOf(pieces, |payload|)]
  }

  lemma SentWholeExactly(payload: Event, header: int, pieces: seq<int>)
    ensures |SentBytes(payload, header, pieces)| == |PacketBytes(payload)| <==> Whole(payload, header, pieces)
    ensures SentBytes(payload, header, pieces) == PacketBytes(payload) <==> Whole(payload, header, pieces)
  {
  }

  /** One more piece of the payload on the wire is one more piece of the packet. */
  lemma PieceExtendsPacket(payload: Event, total: nat, sent: nat)
    requires total + sent <= |payload|
    ensures PacketBytes(payload)[..PACKET_HEADER + total] + payload[total..][..sent]
         == PacketBytes(payload)[..PACKET_HEADER + total + sent]
  {
    var whole := PacketBytes(payload);
    assert whole[PACKET_HEADER..] == payload;
    assert whole[..PACKET_HEADER + total + sent]
        == whole[..PACKET_HEADER + total] + whole[PACKET_HEADER + total..PACKET_HEADER + total + sent];
  }

  /** `send_packet_to_consumer`: exactly the bytes that the network takes go out; the code is 0 when they are all. */
  method SendPacket(socket: Socket, payload: Event, header: int, pieces: seq<int>) returns (code: int)
    modifies socket
    ensures socket.out == old(socket.out) + SentBytes(payload, header, pieces)
    ensures code == if Whole(payload, header, pieces) then 0 else -1
  {
    ghost var before, whole := socket.out, PacketBytes(payload);
    var head := EncodeU32(MAGIC) + EncodeU32(|payload|);
    var sent := socket.Send(head, header);
    assert head == whole[..PACKET_HEADER];
    if sent != PACKET_HEADER {
      assert sent >= 0 ==> head[..sent] == whole[..sent];
      return -1;
    }
    var total, k := 0, 0;
    while total < |payload|
      invariant 0 <= total <= |payload| && k <= |pieces|
      invariant socket.out == before + whole[..PACKET_HEADER + total]
      invariant TakenOf(pieces, |payload|) == total + TakenOf(pieces[k..], |payload| - total)
      decreases |payload| - total
    {
      sent := if k < |pieces| then pieces[k] else 0;
      sent := socket.Send(payload[total..], sent);
      if sent <= 0 {
        return -1;
      }
      assert pieces[k..][0] == pieces[k] && pieces[k..][1..] == pieces[k + 1..];
      PieceExtendsPacket(payload, total, sent);
      total, k := total + sent, k + 1;
    }
    return 0;
  }

  /** One thing a handler says: a reply line, or a packet with what the network makes of it. */
  datatype Utterance = Said(answer: Answer) | Sent(payload: Event, header: int, pieces: seq<int>)

  /** The bytes that go out. */
  function Uttered(u: Utterance): bytes {
    match u
    case Said(a) => ReplyBytes(a)
    case Sent(p, header, pieces) => SentBytes(p, header, pieces)
  }

  /** The output it stands for. */
  function Meant(u: Utterance): Output {
    match u
    case Said(a) =>
      RepliesAreLines(a);
      ALine(ReplyBytes(a))
    case Sent(p, _, _) => APacket(p)
  }

  predicate Complete(u: Utterance) {
    u.Sent? ==> Whole(u.payload, u.header, u.pieces)
  }

  function Speech(us: seq<Utterance>): bytes {
    if us == [] then [] else Uttered(us[0]) + Speech(us[1..])
  }

  function AllMeant(us: seq<Utterance>): (os: seq<Output>)
    ensures |os| == |us|
  {
    if us == [] then [] else [Meant(us[0])] + AllMeant(us[1..])
  }

  predicate AllComplete(us: seq<Utterance>) {
    forall k :: 0 <= k < |us| ==> Complete(us[k])
  }

  lemma UtteredWholeExactly(u: Utterance)
    ensures |Uttered(u)| <= |Code(Meant(u))|
    ensures |Uttered(u)| == |Code(Meant(u))| <==> Complete(u)
    ensures Complete(u) ==> Uttered(u) == Code(Meant(u))
  {
    if u.Sent? {
      SentWholeExactly(u.payload, u.header, u.pieces);
    }
  }

  lemma {:induction false} SpeechLength(us: seq<Utterance>)
    ensures |Speech(us)| <= |Stream(AllMeant(us))|
    ensures |Speech(us)| == |Stream(AllMeant(us))| <==> AllComplete(us)
    ensures AllComplete(us) ==> Speech(us) == Stream(AllMeant(us))
  {
    if us != [] {
      UtteredWholeExactly(us[0]);
      SpeechLength(us[1..]);
      assert AllMeant(us)[0] == Meant(us[0]) && AllMeant(us)[1..] == AllMeant(us[1..]);
      assert AllComplete(us) <==> Complete(us[0]) && AllComplete(us[1..]) by {
        assert forall k :: 1 <= k < |us| ==> us[k] == us[1..][k - 1];
      }
    }
  }

  /** What goes out is the stream of the outputs meant if and only if every packet went out whole. */
  lemma SpeechIsStreamExactly(us: seq<Utterance>)
    ensures Speech(us) == Stream(AllMeant(us)) <==> AllComplete(us)
  {
    SpeechLength(us);
  }

  /** So a client that gets every packet whole can tell what was meant. */
  lemma CompleteSpeechIsDecodable(us: seq<Utterance>, vs: seq<Utterance>)
    requires AllComplete(us) && AllComplete(vs) && Speech(us) == Speech(vs)
    ensures AllMeant(us) == AllMeant(vs)
  {
    SpeechLength(us);
    SpeechLength(vs);
    StreamIsInjective(AllMeant(us), AllMeant(vs));
  }

  /** A packet that is cut behind its header swallows what is said next: with a payload as long as the reply,
      the client sees one whole packet that holds the reply. */
  lemma CutPacketSwallowsReply(payload: Event, pieces: seq<int>, a: Answer)
    requires |payload| == |ReplyBytes(a)| && (pieces == [] || pieces[0] <= 0)
    ensures
      var reply: Event := ReplyBytes(a);
      && Speech([Sent(payload, PACKET_HEADER, pieces), Said(a)]) == Stream([APacket(reply)])
      && AllMeant([Sent(payload, PACKET_HEADER, pieces), Said(a)]) != [APacket(reply)]
  {
    var us := [Sent(payload, PACKET_HEADER, pieces), Said(a)];
    var reply: Event := ReplyBytes(a);
    assert us[1..] == [Said(a)] && [Said(a)][1..] == [];
    assert Speech([Said(a)]) == reply + [];
    assert Speech(us) == SentBytes(payload, PACKET_HEADER, pieces) + reply;
    assert [APacket(reply)][1..] == [] && Stream([APacket(reply)]) == PacketBytes(reply) + [];
    assert SentBytes(payload, PACKET_HEADER, pieces) == EncodeU32(MAGIC) + EncodeU32(|reply|);
  }
}
