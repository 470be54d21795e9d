/**
 * The response dispatcher, `split_and_send_messages` (main.py:234-251): an
 * empty reply becomes one fixed notice; any other reply is cut into
 * consecutive slices of at most `max_length` characters, and the slices that
 * are not blank are sent, in order. Sending is modelled as the sequence of
 * messages handed to the channel.
 */
module Dispatch {
  import opened Text

  /** The notice sent for an empty reply (main.py:239). */
  const SpeechlessNotice: string := "\U{274C} I've been rendered speechless. How embarrassing."

  /** The slice length the router passes (main.py:157). */
  const ReplyChunkLength: nat := 1700

  /** Consecutive slices of `n` characters, the last one possibly shorter. */
  function Chunks(text: string, n: nat): seq<string>
    requires n > 0
    decreases |text|
  {
    if text == [] then []
    else if |text| <= n then [text]
    else [text[..n]] + Chunks(text[n..], n)
  }

  function Concat(cs: seq<string>): string {
    if cs == [] then [] else cs[0] + Concat(cs[1..])
  }

  /** The slices put back together give the text. */
  lemma {:induction false} ChunksRebuildText(text: string, n: nat)
    requires n > 0
    ensures Concat(Chunks(text, n)) == text
    decreases |text|
  {
    if |text| > n {
      ChunksRebuildText(text[n..], n);
      assert text[..n] + text[n..] == text;
    }
  }

  /**
   * Every slice is non-empty and at most `n` long, all but the last exactly
   * `n`; there are ceil(|text| / n) of them.
   */
  lemma ChunksSizes(text: string, n: nat)
    requires n > 0
    ensures var cs := Chunks(text, n);
      && (forall i :: 0 <= i < |cs| ==> 0 < |cs[i]| <= n)
      && (forall i :: 0 <= i < |cs| - 1 ==> |cs[i]| == n)
      && |cs| == (|text| + n - 1) / n
  {
    ChunksShape(text, n);
    CountIsCeiling(|text|, n);
  }

  /** ceil(len / n), counted one slice at a time. */
  function SliceCount(len: nat, n: nat): nat
    requires n > 0
    decreases len
  {
    if len == 0 then 0 else if len <= n then 1 else 1 + SliceCount(len - n, n)
  }

  lemma {:induction false} ChunksShape(text: string, n: nat)
    requires n > 0
    ensures var cs := Chunks(text, n);
      && (forall i :: 0 <= i < |cs| ==> 0 < |cs[i]| <= n)
      && (forall i :: 0 <= i < |cs| - 1 ==> |cs[i]| == n)
      && |cs| == SliceCount(|text|, n)
    decreases |text|
  {
    if |text| > n {
      var cs, rest := Chunks(text, n), Chunks(text[n..], n);
      ChunksShape(text[n..], n);
      assert cs == [text[..n]] + rest;
      forall i | 0 < i < |cs| ensures cs[i] == rest[i - 1] {
      }
    }
  }

  lemma {:induction false} CountIsCeiling(len: nat, n: nat)
    requires n > 0
    ensures SliceCount(len, n) == (len + n - 1) / n
    decreases len
  {
    if len == 0 {
      DivUnique(n - 1, n, 0, n - 1);
    } else if len <= n {
      DivUnique(len + n - 1, n, 1, len - 1);
    } else {
      CountIsCeiling(len - n, n);
      DivShift(len - 1, n);
    }
  }

  lemma DivShift(a: nat, n: nat)
    requires n > 0
    ensures (a + n) / n == a / n + 1
  {
    var q, r := a / n, a % n;
    assert a == n * q + r;
    assert a + n == n * (q + 1) + r;
    DivUnique(a + n, n, q + 1, r);
  }

  lemma DivUnique(x: int, n: int, q: int, r: int)
    requires n > 0 && 0 <= r < n && x == n * q + r
    ensures x / n == q
  {
    var q0, r0 := x / n, x % n;
    assert n * q0 + r0 == n * q + r;
    assert n * (q0 - q) == r - r0;
    if q0 > q {
      MulAtLeast(n, q0 - q);
    } else if q0 < q {
      MulAtLeast(n, q - q0);
    }
  }

  lemma MulAtLeast(n: int, d: int)
    requires n > 0 && d >= 1
    ensures n * d >= n
  {
  }

  /** The slices that hold a non-whitespace character, in their order. */
  function NonBlank(cs: seq<string>): seq<string> {
    if cs == [] then []
    else (if IsBlank(cs[0]) then [] else [cs[0]]) + NonBlank(cs[1..])
  }

  /**
   * Skipping the blank slices loses only whitespace: what is sent has the
   * same non-whitespace characters, in order, as the slices together, and
   * no sent slice is blank.
   */
  lemma {:induction false} NonBlankLosesOnlySpaces(cs: seq<string>)
    ensures NonSpace(Concat(NonBlank(cs))) == NonSpace(Concat(cs))
    ensures forall i :: 0 <= i < |NonBlank(cs)| ==> !IsBlank(NonBlank(cs)[i])
    decreases |cs|
  {
    if cs != [] {
      NonBlankLosesOnlySpaces(cs[1..]);
      var kept := (if IsBlank(cs[0]) then [] else [cs[0]]);
      var tail := NonBlank(cs[1..]);
      NonSpaceAppend(cs[0], Concat(cs[1..]));
      assert NonBlank(cs) == kept + tail;
      if IsBlank(cs[0]) {
        NonSpaceEmptyIffBlank(cs[0]);
        assert NonBlank(cs) == tail;
      } else {
        NonSpaceAppend(cs[0], Concat(tail));
        assert NonBlank(cs)[1..] == tail;
        assert Concat(NonBlank(cs)) == cs[0] + Concat(tail);
      }
    }
  }

  lemma NonBlankStep(cs: seq<string>, j: nat)
    requires j < |cs|
    ensures NonBlank(cs[j..]) == (if IsBlank(cs[j]) then [] else [cs[j]]) + NonBlank(cs[j + 1..])
  {
    assert cs[j..][1..] == cs[j + 1..];
  }

  /** When no slice is blank, every slice is sent. */
  lemma {:induction false} NonBlankKeepsAll(cs: seq<string>)
    requires forall i :: 0 <= i < |cs| ==> !IsBlank(cs[i])
    ensures NonBlank(cs) == cs
    decreases |cs|
  {
    if cs != [] {
      NonBlankKeepsAll(cs[1..]);
      assert [cs[0]] + cs[1..] == cs;
    }
  }

  /** The messages for a reply (main.py:238-251). */
  function Dispatched(text: string, maxLength: nat): seq<string>
    requires maxLength > 0
  {
    if text == [] then [SpeechlessNotice] else NonBlank(Chunks(text, maxLength))
  }

  /** `text[i:i+n]` for non-negative bounds: Python clamps them to the length. */
  function Slice(text: string, lo: nat, hi: nat): string {
    if lo >= |text| then [] else if hi >= |text| then text[lo..] else if hi <= lo then [] else text[lo..hi]
  }

  /** `text[i:]` in the same clamped sense. */
  function After(text: string, i: nat): string {
    if i >= |text| then [] else text[i..]
  }

  lemma ChunksFrom(text: string, i: nat, n: nat)
    requires n > 0 && i < |text|
    ensures Chunks(After(text, i), n) == [Slice(text, i, i + n)] + Chunks(After(text, i + n), n)
  {
    var t := text[i..];
    if |t| > n {
      assert t[..n] == text[i..i + n];
      assert t[n..] == text[i + n..];
    }
  }

  /**
   * `split_and_send_messages` (main.py:234-251): the speechless notice for
   * an empty reply, otherwise exactly the non-blank slices, in order.
   */
  method SplitAndSend(text: string, maxLength: nat) returns (sent: seq<string>)
    requires maxLength > 0
    ensures text == [] ==> sent == [SpeechlessNotice]
    ensures text != [] ==> sent == NonBlank(Chunks(text, maxLength))
    ensures sent == Dispatched(text, maxLength)
  {
    if text == [] {
      sent := [SpeechlessNotice];
      return;
    }
    var messages := SliceText(text, maxLength);
    sent := SendNonBlank(messages);
  }

  /**
   * The slicing loop of main.py:243-247: `text[i:i+max_length]` for `i`
   * stepping from 0 by `max_length`, in order.
   */
  method SliceText(text: string, maxLength: nat) returns (messages: seq<string>)
    requires maxLength > 0
    ensures messages == Chunks(text, maxLength)
  {
    messages := [];
    var i: nat := 0;
    while i < |text|
      invariant messages + Chunks(After(text, i), maxLength) == Chunks(text, maxLength)
      decreases |text| - i
    {
      ChunksFrom(text, i, maxLength);
      ghost var rest := Chunks(After(text, i + maxLength), maxLength);
      assert (messages + [Slice(text, i, i + maxLength)]) + rest
        == messages + ([Slice(text, i, i + maxLength)] + rest);
      messages := messages + [Slice(text, i, i + maxLength)];
      i := i + maxLength;
    }
    assert After(text, i) == [];
  }

  /**
   * The sending loop of main.py:249-251: each prepared slice is sent unless
   * `string.strip()` leaves nothing of it.
   */
  method SendNonBlank(messages: seq<string>) returns (sent: seq<string>)
    ensures sent == NonBlank(messages)
  {
    sent := [];
    var j := 0;
    while j < |messages|
      invariant 0 <= j <= |messages|
      invariant sent + NonBlank(messages[j..]) == NonBlank(messages)
    {
      NonBlankStep(messages, j);
      ghost var rest := NonBlank(messages[j + 1..]);
      if !IsBlank(messages[j]) {
        assert (sent + [messages[j]]) + rest == sent + ([messages[j]] + rest);
        sent := sent + [messages[j]];
      } else {
        assert [] + rest == rest;
      }
      j := j + 1;
    }
    assert NonBlank(messages[j..]) == [];
  }

  /**
   * A 3500-character reply is cut into slices of 1700, 1700 and 100
   * characters; with no whitespace in it, all three are sent.
   */
  lemma ThreeChunksFor3500(text: string)
    requires |text| == 3500
    ensures |Chunks(text, ReplyChunkLength)| == 3
    ensures |Chunks(text, ReplyChunkLength)[0]| == 1700
    ensures |Chunks(text, ReplyChunkLength)[1]| == 1700
    ensures |Chunks(text, ReplyChunkLength)[2]| == 100
    ensures (forall i :: 0 <= i < |text| ==> !IsSpace(text[i])) ==>
      Dispatched(text, ReplyChunkLength) == Chunks(text, ReplyChunkLength)
  {
    var cs := Chunks(text, 1700);
    assert cs == [text[..1700]] + Chunks(text[1700..], 1700);
    var t1 := text[1700..];
    assert Chunks(t1, 1700) == [t1[..1700]] + Chunks(t1[1700..], 1700);
    assert Chunks(t1[1700..], 1700) == [t1[1700..]];
    if forall i :: 0 <= i < |text| ==> !IsSpace(text[i]) {
      forall k | 0 <= k < 3 ensures !IsBlank(cs[k]) {
        assert cs[k][0] == text[1700 * k];
      }
      NonBlankKeepsAll(cs);
    }
  }
}
