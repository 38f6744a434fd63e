/** The tag part of record encoding: the packet handed to the serialiser. */
module Encoder {
  import opened Common

  /** The three-element record `(tag, timestamp, data)` that goes on the wire. */
  datatype Packet<D> = Packet(tag: string, timestamp: int, data: D)

  /** A label counts only when it is present and non-empty (Python truthiness). */
  predicate Given(suffix: Option<string>) {
    suffix.Some? && |suffix.value| > 0
  }

  function EffectiveTag(tag: string, suffix: Option<string>): string {
    if Given(suffix) then tag + "." + suffix.value else tag
  }

  /** The packet built for one emit: base tag, optionally suffixed with `.label`. */
  function MakePacket<D>(tag: string, suffix: Option<string>, timestamp: int, data: D): (p: Packet<D>)
    ensures p.timestamp == timestamp && p.data == data
    ensures HasPrefix(p.tag, tag)
    ensures Given(suffix) <==> |p.tag| > |tag|
    ensures Given(suffix) ==> |p.tag| == |tag| + 1 + |suffix.value| && p.tag[|tag|] == '.' && p.tag[|tag| + 1..] == suffix.value
    ensures !Given(suffix) ==> p.tag == tag
  {
    Packet(EffectiveTag(tag, suffix), timestamp, data)
  }

  /** What a receiver that knows the base tag reads back as the label. */
  function SplitLabel(tag: string, effective: string): (suffix: Option<string>)
    ensures suffix.Some? ==> |suffix.value| > 0
  {
    if |effective| > |tag| + 1 && HasPrefix(effective, tag) && effective[|tag|] == '.'
    then Some(effective[|tag| + 1..])
    else None
  }

  /** The label is recoverable from the composed tag; an empty label reads back as absent. */
  lemma LabelRoundTrip(tag: string, suffix: Option<string>)
    ensures SplitLabel(tag, MakePacket(tag, suffix, 0, 0).tag) == (if Given(suffix) then suffix else None)
  {
    var p := MakePacket(tag, suffix, 0, 0);
    if Given(suffix) {
      assert |p.tag| > |tag| + 1;
    }
  }

  /** Distinct non-empty labels give distinct tags, and a label never collides with no label. */
  lemma EffectiveTagInjective(tag: string, a: Option<string>, b: Option<string>)
    requires Given(a) || Given(b)
    requires a != b
    ensures MakePacket(tag, a, 0, 0).tag != MakePacket(tag, b, 0, 0).tag
  {
    LabelRoundTrip(tag, a);
    LabelRoundTrip(tag, b);
  }
}
