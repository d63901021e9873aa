/**
 * A message to send (src/Message.php): a payload and an optional delay of
 * its own, set through setters on a mutable object, plus the derivation of
 * the message id and of its scheduling score from the server's clock.
 */
module Messages {
  import opened Wrappers
  import Radix

  /** Largest per-message delay, in seconds. */
  const MaxDelay := 9999999

  /**
   * The characters of the random part of an id, in the order random indices
   * select them: "ABCDEFGHIJKLMNOPQRSTUVWXYZabcdefghijklmnopqrstuvwxyz0123456789".
   */
  const Alphabet: string := CharRange('A', 26) + CharRange('a', 26) + CharRange('0', 10)

  /** n consecutive characters starting at `first`. */
  function CharRange(first: char, n: nat): (s: string)
    requires first as int + n <= 128
    ensures |s| == n
  {
    seq(n, i requires 0 <= i < n => (first as int + i) as char)
  }

  /** Length of the random part of an id. */
  const SuffixLength := 22

  /**
   * 2^53: base_convert is exact below the platform's largest integer
   * (2^63 - 1 on 64-bit builds) and falls back to a double above it; the
   * model converts exactly and admits only stamps below this conservative
   * bound.
   */
  const MaxExactStamp := 9007199254740992

  datatype MessageError = DelayOutOfRange

  predicate IsAlphanumeric(c: char) {
    ('A' <= c <= 'Z') || ('a' <= c <= 'z') || ('0' <= c <= '9')
  }

  /** The 22 draws of random_int(0, 61) that pick the characters of the random part. */
  predicate ValidPicks(picks: seq<int>) {
    |picks| == SuffixLength && forall i :: 0 <= i < |picks| ==> 0 <= picks[i] < |Alphabet|
  }

  /** The random part of an id, selected by the draws. */
  function Suffix(picks: seq<int>): (s: string)
    requires ValidPicks(picks)
  {
    seq(SuffixLength, i requires 0 <= i < SuffixLength => Alphabet[picks[i]])
  }

  /** The id of a message sent at microsecond stamp `stamp`: base-36 stamp, then the random part. */
  function MessageId(stamp: nat, picks: seq<int>): (id: string)
    requires ValidPicks(picks)
  {
    Radix.Encode(stamp, 36) + Suffix(picks)
  }

  /**
   * An id is its stamp's base-36 numeral followed by exactly 22 letters and
   * digits; the part before the last 22 characters decodes to the stamp.
   */
  lemma MessageIdShape(stamp: nat, picks: seq<int>)
    requires ValidPicks(picks)
    ensures var id := MessageId(stamp, picks);
      && |id| == |Radix.Encode(stamp, 36)| + SuffixLength
      && id[|id| - SuffixLength..] == Suffix(picks)
      && (forall i :: |id| - SuffixLength <= i < |id| ==> IsAlphanumeric(id[i]))
      && Radix.AllDigits(id[..|id| - SuffixLength], 36)
      && Radix.Decode(id[..|id| - SuffixLength], 36) == stamp
  {
    var id := MessageId(stamp, picks);
    var p := Radix.Encode(stamp, 36);
    assert id[..|id| - SuffixLength] == p;
    assert id[|id| - SuffixLength..] == Suffix(picks);
    forall i | |id| - SuffixLength <= i < |id| ensures IsAlphanumeric(id[i]) {
      var k := i - |p|;
      assert id[i] == Alphabet[picks[k]];
      AlphabetIsAlphanumeric(picks[k]);
    }
    Radix.DecodeEncode(stamp, 36);
  }

  lemma AlphabetIsAlphanumeric(k: int)
    requires 0 <= k < |Alphabet|
    ensures IsAlphanumeric(Alphabet[k])
  {
    var upper, lower, digits := CharRange('A', 26), CharRange('a', 26), CharRange('0', 10);
    if k < 26 {
      assert Alphabet[k] == upper[k];
    } else if k < 52 {
      assert Alphabet[k] == lower[k - 26];
    } else {
      assert Alphabet[k] == digits[k - 52];
    }
  }

  /**
   * Ids sort by send time: an id from a later stamp is never shorter, and
   * when both stamps have numerals of the same length it is
   * lexicographically larger, whatever the random parts.
   */
  lemma MessageIdOrder(s1: nat, s2: nat, p1: seq<int>, p2: seq<int>)
    requires ValidPicks(p1) && ValidPicks(p2) && s1 < s2
    ensures |MessageId(s1, p1)| <= |MessageId(s2, p2)|
    ensures |MessageId(s1, p1)| == |MessageId(s2, p2)| ==> Radix.LexLess(MessageId(s1, p1), MessageId(s2, p2))
  {
    Radix.EncodeOrder(s1, s2, 36);
    if |Radix.Encode(s1, 36)| == |Radix.Encode(s2, 36)| {
      Radix.LexLessExtend(Radix.Encode(s1, 36), Radix.Encode(s2, 36), Suffix(p1), Suffix(p2));
    }
  }

  /**
   * The equal-length condition above cannot be dropped: stamp 35 is "z" in
   * base 36 and stamp 36 is "10", so the later id sorts first.
   */
  lemma IdOrderBreaksAtNewDigit(p: seq<int>)
    requires ValidPicks(p)
    ensures MessageId(35, p)[0] == 'z' && MessageId(36, p)[0] == '1'
    ensures Radix.LexLess(MessageId(36, p), MessageId(35, p))
  {
    Radix.EncodeStep(36, 36);
    assert Radix.Encode(36, 36) == "10";
    assert Radix.Encode(35, 36) == "z";
  }

  predicate ValidDelay(d: Option<int>) {
    d.None? || 0 <= d.value <= MaxDelay
  }

  class Message {
    var payload: string
    /** The message's own delay in seconds; None defers to the queue's default. */
    var delay: Option<int>

    /** The stored delay is always one that setDelay accepted. */
    predicate Valid()
      reads this
    {
      ValidDelay(delay)
    }

    constructor (payload: string)
      ensures Valid()
      ensures this.payload == payload && delay == None
    {
      this.payload := payload;
      delay := None;
    }

    /** setMessage: replaces the payload and nothing else. */
    method SetMessage(payload: string)
      requires Valid()
      modifies this
      ensures Valid()
      ensures this.payload == payload && delay == old(delay)
    {
      this.payload := payload;
    }

    /** setDelay: accepts None or 0..9999999; a refused value leaves the message as it was. */
    method SetDelay(seconds: Option<int>) returns (r: Outcome<MessageError>)
      requires Valid()
      modifies this
      ensures Valid()
      ensures r.Pass? <==> ValidDelay(seconds)
      ensures r.Pass? ==> delay == seconds
      ensures r.Fail? ==> r.error == DelayOutOfRange && delay == old(delay)
      ensures payload == old(payload)
    {
      if seconds.Some? && (seconds.value < 0 || seconds.value > MaxDelay) {
        return Fail(DelayOutOfRange);
      }
      delay := seconds;
      r := Pass;
    }

    /** checkSize: whether the payload's byte length is at most maxSize; no value of maxSize is special. */
    predicate CheckSize(maxSize: int)
      reads this
    {
      |payload| <= maxSize
    }

    /**
     * generateUid: the base-36 numeral of the decimal stamp followed by 22
     * characters of the alphabet, appended one per draw.
     */
    method GenerateUid(microTimestamp: string, picks: seq<int>) returns (id: string)
      requires Radix.AllDigits(microTimestamp, 10)
      requires Radix.Decode(microTimestamp, 10) < MaxExactStamp
      requires ValidPicks(picks)
      ensures id == MessageId(Radix.Decode(microTimestamp, 10), picks)
    {
      var randString := "";
      for i := 0 to SuffixLength
        invariant |randString| == i
        invariant forall j :: 0 <= j < i ==> randString[j] == Alphabet[picks[j]]
      {
        randString := randString + [Alphabet[picks[i]]];
      }
      id := Radix.Encode(Radix.Decode(microTimestamp, 10), 36) + randString;
    }

    /** generateQueueScore: the millisecond stamp plus the effective delay in milliseconds. */
    function GenerateQueueScore(msTimestamp: int, defaultDelay: int): (score: int)
      reads this
    {
      var d := if delay.Some? then delay.value else defaultDelay;
      msTimestamp + d * 1000
    }
  }

  /**
   * A size limit of -1, the configuration's "unlimited", admits no message
   * at all: checkSize compares the byte length with it as written.
   */
  lemma UnlimitedRejectsEveryMessage(m: Message)
    ensures !m.CheckSize(-1)
  {
  }

  /**
   * The score is the stamp moved forward by the message's own delay when it
   * has one and by the queue's default otherwise, so it is never earlier
   * than the stamp, is at most 9999999 s later, and keeps the order of stamps.
   */
  lemma ScoreBounds(m: Message, t: int, defaultDelay: int)
    requires m.Valid() && 0 <= defaultDelay <= MaxDelay
    ensures m.delay.Some? ==> m.GenerateQueueScore(t, defaultDelay) == t + 1000 * m.delay.value
    ensures m.delay.None? ==> m.GenerateQueueScore(t, defaultDelay) == t + 1000 * defaultDelay
    ensures t <= m.GenerateQueueScore(t, defaultDelay) <= t + 1000 * MaxDelay
    ensures forall t' :: t <= t' ==> m.GenerateQueueScore(t, defaultDelay) <= m.GenerateQueueScore(t', defaultDelay)
  {
  }
}
