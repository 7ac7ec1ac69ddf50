/** What leaves the server: the newest bundle of a device as Base64, what a subscriber gets from it, and
    all the texts of a device, from the bytes it receives. */
module Publisher {
  import opened AssistData
  import opened AssistPipeline
  import opened Base64
  import opened BitFields
  import opened RangeDecoder
  import opened Rtcm3

  function Octets(s: seq<byte>): (r: seq<octet>)
    ensures |r| == |s|
  {
    seq(|s|, i requires 0 <= i < |s| => s[i] as int)
  }

  function Bytes(s: seq<octet>): seq<byte> {
    seq(|s|, i requires 0 <= i < |s| => s[i] as byte)
  }

  lemma ByteOctet(b: byte)
    ensures (b as int) as byte == b
  {
  }

  lemma OctetsInvert(s: seq<byte>)
    ensures Bytes(Octets(s)) == s
  {
    forall i | 0 <= i < |s|
      ensures Bytes(Octets(s))[i] == s[i]
    {
      ByteOctet(s[i]);
    }
  }

  function TextOf(b: Bundle): string {
    Published(Octets(Concatenated(b)))
  }

  /** handleOutput and publish: the text of the newest bundle, if there is one that has not been sent.
      The text is taken from a 2400-byte buffer and includes the terminating NUL. */
  method HandleOutput(p: AssistDataProcessor) returns (sent: bool, text: string)
    requires p.Valid()
    modifies p`flag, p`taken
    ensures p.Valid() && !p.flag && sent == old(p.flag)
    ensures sent ==> |p.Produced()| > 0 && p.taken == old(p.taken) + [|p.Produced()| - 1]
                     && text == TextOf(p.Produced()[|p.Produced()| - 1]) && |text| <= 881
                     && Subscriber(text, p.Produced()[|p.Produced()| - 1])
    ensures !sent ==> p.taken == old(p.taken)
  {
    hide Encoding, SlotHolds, WorldAfter, Bundles, Deframe, Parts;
    var data;
    sent, data := p.GetOutput();
    text := "";
    if sent {
      var n := |data|;
      var out := new char[2400](_ => '\0');
      BundleFits(Octets(data));
      var ok := Encode(out, (n + 2) / 3 * 4 + 1, Octets(data));
      text := out[..(n + 2) / 3 * 4 + 1];
      TextIs(Octets(data), text);
      SubscriberDecodes(data, p.Produced()[|p.Produced()| - 1]);
    }
  }

  lemma TextIs(x: seq<octet>, text: string)
    requires |text| == (|x| + 2) / 3 * 4 + 1
    requires |Encoding(x)| < |text| && text[..|Encoding(x)|] == Encoding(x) && text[|Encoding(x)|] == '\0'
    ensures text == Published(x)
  {
    EncodingAt(x);
  }

  /** A subscriber that decodes the text as it was sent, NUL included, gets the three frames of the bundle;
      it gets nothing when the bundle's length is a multiple of three, for then the text has no padding
      and the NUL is taken for a foreign letter. */
  ghost predicate Subscriber(text: string, b: Bundle) {
    && (AllLetters(Body(text)) <==> |Concatenated(b)| % 3 != 0)
    && (AllLetters(Body(text)) ==> Deframe(Bytes(Base64.Octets(Body(text)))) == Parts(b))
  }

  lemma SubscriberDecodes(data: seq<byte>, b: Bundle)
    requires data == Concatenated(b) && Deframe(data) == Parts(b)
    ensures Subscriber(Published(Octets(data)), b)
  {
    hide Published, Deframe, Parts, Body, Base64.Octets;
    PublishedDecodes(Octets(data));
    OctetsInvert(data);
  }

  // ---------- from the received bytes to the published texts ----------

  function Joined(pieces: seq<seq<byte>>): seq<byte> {
    if |pieces| == 0 then [] else Joined(pieces[..|pieces| - 1]) + pieces[|pieces| - 1]
  }

  /** What is published when the timer runs after every piece: the newest bundle of the stream so far,
      each time there is a new one. */
  ghost function Texts(env: Environment, pieces: seq<seq<byte>>): seq<string> {
    if |pieces| == 0 then []
    else
      var past := pieces[..|pieces| - 1];
      var was, now := BundlesIn(env, Joined(past)), BundlesIn(env, Joined(pieces));
      Texts(env, past) + (if |now| > |was| then [TextOf(now[|now| - 1])] else [])
  }

  /** The flag is up exactly when the stream has given rise to a bundle newer than the last one taken. */
  lemma FlagMeans(p: AssistDataProcessor)
    requires p.Valid()
    ensures p.Produced() == BundlesIn(p.env, p.decoder.received)
    ensures var n, m := |p.Produced()|, |p.taken|;
            && (p.flag <==> n > 0 && (m == 0 || p.taken[m - 1] < n - 1))
            && (m > 0 ==> p.taken[m - 1] < n)
  {
  }

  /** One piece of input, and one run of the timer. */
  method Turn(p: AssistDataProcessor, piece: seq<byte>) returns (sent: bool, text: string)
    requires p.Valid() && !p.flag
    modifies p, p.decoder, p.decoder.buff, p.raw
    modifies p.refstation, p.refstation.buff, p.gps, p.gps.tracker, p.gps.buff, p.bds, p.bds.tracker, p.bds.buff
    ensures p.Valid() && !p.flag && p.decoder.received == old(p.decoder.received) + piece
    ensures var was, now := BundlesIn(p.env, old(p.decoder.received)), BundlesIn(p.env, p.decoder.received);
            sent == (|now| > |was|) && (sent ==> text == TextOf(now[|now| - 1]))
  {
    hide AssistDataProcessor.Valid, AssistDataProcessor.Produced, BundlesIn, TextOf, Subscriber;
    FlagMeans(p);
    p.Input(piece);
    FlagMeans(p);
    sent, text := HandleOutput(p);
  }

  /** A device from its first byte on: for every stream and every cutting, exactly those texts. */
  method Serve(env: Environment, pieces: seq<seq<byte>>) returns (texts: seq<string>)
    ensures texts == Texts(env, pieces)
  {
    hide AssistDataProcessor.Valid, BundlesIn, TextOf;
    var p := new AssistDataProcessor(env);
    texts := [];
    for i := 0 to |pieces|
      invariant p.Valid() && fresh(p) && p.env == env
      invariant fresh(p.decoder) && fresh(p.raw) && fresh(p.refstation) && fresh(p.gps) && fresh(p.bds)
      invariant fresh(p.decoder.buff) && fresh(p.refstation.buff) && fresh(p.gps.buff) && fresh(p.bds.buff)
      invariant fresh(p.gps.tracker) && fresh(p.bds.tracker)
      invariant p.decoder.received == Joined(pieces[..i]) && !p.flag
      invariant texts == Texts(env, pieces[..i])
    {
      assert pieces[..i + 1][..i] == pieces[..i];
      var sent, text := Turn(p, pieces[i]);
      if sent {
        texts := texts + [text];
      }
    }
    assert pieces[..|pieces|] == pieces;
  }

  /** However the stream is cut: nothing is published exactly when it gives rise to no bundle; otherwise the
      last text is that of its newest bundle. */
  lemma {:induction false} LastText(env: Environment, pieces: seq<seq<byte>>)
    ensures var texts, bundles := Texts(env, pieces), BundlesIn(env, Joined(pieces));
            && (texts == [] <==> bundles == [])
            && (texts != [] ==> texts[|texts| - 1] == TextOf(bundles[|bundles| - 1]))
  {
    hide BundlesIn, TextOf;
    if |pieces| == 0 {
      assert BundlesIn(env, []) == [] by {
        NothingIn(env);
      }
    } else {
      var past := pieces[..|pieces| - 1];
      LastText(env, past);
      BundlesInGrow(env, Joined(past), pieces[|pieces| - 1]);
    }
  }

  lemma NothingIn(env: Environment)
    ensures BundlesIn(env, []) == []
  {
  }
}
