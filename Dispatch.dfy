/** Delivery of one text to the chat (`send_telegram_message`).

    The messaging endpoint accepts at most MaxMessageLength characters per
    message. A longer text is cut into consecutive slices of that length, the
    last one possibly shorter, and the slices are posted one after another;
    the first reply whose status is not 200 aborts the delivery.

    The network is replaced by the sequence of status codes the endpoint
    answers: the k-th post made receives `statuses[k]`. A post for which no
    status is left stands for a transport failure, which aborts the delivery
    in the same way. */
module Dispatch {

  /** Largest number of characters the endpoint accepts in one message. */
  const MaxMessageLength: nat := 4096

  /** The only status that counts as a successful post. */
  const StatusOk: int := 200

  /** What a delivery ends with: every post accepted, or the index of the
      post whose reply was not a success. */
  datatype SendResult = Sent | Refused(chunk: nat)

  /** The texts posted, in the order they were posted, and how it ended. */
  datatype Delivery = Delivery(posted: seq<string>, result: SendResult)

  function Min(a: int, b: int): int { if a <= b then a else b }

  /** The concatenation of `parts`, in order. */
  function Join(parts: seq<string>): string
  {
    if parts == [] then [] else parts[0] + Join(parts[1..])
  }

  /** The texts posted for `message`: the whole message when it fits in one
      message, otherwise its consecutive slices of MaxMessageLength
      characters. There are ceil(L / MaxMessageLength) of them for a message
      of length L > 0, and one for the empty message. */
  function Chunks(message: string): (r: seq<string>)
    ensures |message| > 0 ==> |r| == (|message| + MaxMessageLength - 1) / MaxMessageLength
    ensures |message| == 0 ==> |r| == 1
    decreases |message|
  {
    if |message| <= MaxMessageLength then [message]
    else [message[..MaxMessageLength]] + Chunks(message[MaxMessageLength..])
  }

  /** The chunks, concatenated in order, spell the message. */
  lemma {:induction false} JoinChunks(message: string)
    ensures Join(Chunks(message)) == message
    decreases |message|
  {
    if |message| > MaxMessageLength {
      var head, rest := message[..MaxMessageLength], message[MaxMessageLength..];
      JoinChunks(rest);
      assert ([head] + Chunks(rest))[1..] == Chunks(rest);
      assert head + rest == message;
    }
  }

  /** The k-th chunk is the slice of the message that starts at
      k * MaxMessageLength, cut off at the end of the message. */
  lemma {:induction false} ChunkAt(message: string, k: nat)
    requires k < |Chunks(message)|
    ensures Chunks(message)[k]
         == message[k * MaxMessageLength .. Min((k + 1) * MaxMessageLength, |message|)]
  {
    if |message| <= MaxMessageLength {
    } else if k > 0 {
      var rest := message[MaxMessageLength..];
      ChunkAt(rest, k - 1);
      var lo, hi := (k - 1) * MaxMessageLength, Min(k * MaxMessageLength, |rest|);
      var start, end := k * MaxMessageLength, Min((k + 1) * MaxMessageLength, |message|);
      assert start == lo + MaxMessageLength && end == hi + MaxMessageLength;
      calc {
        Chunks(message)[k];
        Chunks(rest)[k - 1];
        rest[lo..hi];
        message[start..end];
      }
    }
  }

  /** No chunk is longer than MaxMessageLength, every chunk but the last is
      exactly that long, and no chunk of a non-empty message is empty. */
  lemma ChunkSizes(message: string, k: nat)
    requires k < |Chunks(message)|
    ensures |Chunks(message)[k]| <= MaxMessageLength
    ensures k < |Chunks(message)| - 1 ==> |Chunks(message)[k]| == MaxMessageLength
    ensures |message| > 0 ==> |Chunks(message)[k]| > 0
  {
    ChunkAt(message, k);
    if |message| > 0 {
      ChunkCountBound(|message|, k);
      ChunkCountBound(|message|, k + 1);
    }
  }

  /** A message that fits is posted whole, in exactly one post. */
  lemma ShortMessageIsOnePost(message: string)
    requires |message| <= MaxMessageLength
    ensures Chunks(message) == [message]
  {
  }

  /** Whether the endpoint accepted the k-th post. */
  predicate Accepted(statuses: seq<int>, k: nat)
  {
    k < |statuses| && statuses[k] == StatusOk
  }

  /** The index of the first of the first `count` posts that the endpoint
      does not accept, or `count` when it accepts them all. */
  function FirstRefusal(statuses: seq<int>, count: nat): (k: nat)
    ensures k <= count
    ensures forall j :: 0 <= j < k ==> Accepted(statuses, j)
    ensures k < count ==> !Accepted(statuses, k)
  {
    if count == 0 then 0
    else
      var k := FirstRefusal(statuses, count - 1);
      if k < count - 1 then k
      else if Accepted(statuses, count - 1) then count
      else count - 1
  }

  /** The outcome of delivering `message`: the chunks are posted in order,
      the posts made are a non-empty prefix of the chunks, every post but
      the last one made was accepted, and the delivery succeeds exactly when
      the endpoint accepts every chunk; otherwise it stops at the first
      refused chunk and posts nothing after it. */
  function Deliver(message: string, statuses: seq<int>): (d: Delivery)
    ensures 1 <= |d.posted| <= |Chunks(message)|
    ensures d.posted == Chunks(message)[..|d.posted|]
    ensures forall j :: 0 <= j < |d.posted| - 1 ==> Accepted(statuses, j)
    ensures d.result.Sent? <==> forall j :: 0 <= j < |Chunks(message)| ==> Accepted(statuses, j)
    ensures d.result.Sent? ==> d.posted == Chunks(message)
    ensures d.result.Refused? ==>
              d.result.chunk == |d.posted| - 1 && !Accepted(statuses, d.result.chunk)
  {
    var chunks := Chunks(message);
    var k := FirstRefusal(statuses, |chunks|);
    if k < |chunks| then Delivery(chunks[..k + 1], Refused(k)) else Delivery(chunks, Sent)
  }

  /** Posts `message`, cut into chunks when it is too long, and stops at the
      first post that is not answered with status 200. */
  method SendMessage(message: string, statuses: seq<int>) returns (d: Delivery)
    ensures d == Deliver(message, statuses)
    ensures |message| <= MaxMessageLength ==> d.posted == [message]
  {
    if |message| > MaxMessageLength {
      ghost var chunks := Chunks(message);
      var posted: seq<string> := [];
      var i := 0;
      while i < |message|
        invariant i == |posted| * MaxMessageLength
        invariant |posted| <= |chunks|
        invariant i < |message| <==> |posted| < |chunks|
        invariant posted == chunks[..|posted|]
        invariant forall j :: 0 <= j < |posted| ==> Accepted(statuses, j)
      {
        ChunkAt(message, |posted|);
        var chunk := message[i..Min(i + MaxMessageLength, |message|)];
        assert chunks[..|posted| + 1] == chunks[..|posted|] + [chunk];
        posted := posted + [chunk];
        if !Accepted(statuses, |posted| - 1) {
          d := Delivery(posted, Refused(|posted| - 1));
          return;
        }
        i := i + MaxMessageLength;
        ChunkCountBound(|message|, |posted|);
      }
      d := Delivery(posted, Sent);
    } else {
      d := if Accepted(statuses, 0) then Delivery([message], Sent)
           else Delivery([message], Refused(0));
    }
  }

  /** A chunk starts inside a message of length `len` exactly when its index
      is below the chunk count. */
  lemma ChunkCountBound(len: nat, k: nat)
    requires len > 0
    ensures k * MaxMessageLength < len <==> k < (len + MaxMessageLength - 1) / MaxMessageLength
  {
  }
}
