/** The sending thread of one CAN channel: takes frames from the channel's ring and writes what the
    reassembly makes of them. */
module CanSender {
  import opened Bytes
  import opened PcFrame
  import opened Reassembly
  import opened ChannelSet

  /** Everything a sequence of inputs makes the channel send. */
  function AllSent(inputs: seq<Input>, channel: nat): seq<seq<byte>> {
    if inputs == [] then [] else AllSent(inputs[..|inputs| - 1], channel) + Sent(inputs, channel)
  }

  class SendingThread {
    const buffer: PacketBuffer
    var written: seq<seq<byte>>

    ghost predicate Valid()
      reads this, buffer
    {
      buffer.Valid()
    }

    constructor (channel: nat)
      ensures Valid() && fresh(buffer) && fresh(buffer.frames) && buffer.channel == channel
      ensures buffer.Model() == Idle && written == []
    {
      buffer := new PacketBuffer(channel);
      written := [];
    }

    /** One round of the thread's loop: nothing while the channel is closed or its ring empty, otherwise the
        oldest frame is taken and handled, and what comes of it is written. */
    method Round(rings: RingSet, isOpen: bool, at: int)
      requires Valid() && rings.Valid() && rings.elemSize == FRAME_SIZE && buffer.channel < rings.maxChannel && buffer.channel < 32
      requires this as object !in rings.channels && buffer as object !in rings.channels
      requires buffer.frames as object !in rings.Footprint()
      modifies this, buffer, buffer.frames, rings.channels
      ensures Valid() && rings.Valid()
      ensures forall c :: 0 <= c < |rings.channels| && c != buffer.channel ==> rings.channels[c].Contents() == old(rings.channels[c].Contents())
      ensures var q := old(rings.channels[buffer.channel].Contents());
              if !isOpen || q == []
              then rings.channels[buffer.channel].Contents() == q && buffer.Model() == old(buffer.Model()) && written == old(written)
              else
                && rings.channels[buffer.channel].Contents() == q[1..]
                && var (b, sent) := Step(old(buffer.Model()), Input(q[0], at), buffer.channel);
                   buffer.Model() == b && written == old(written) + sent
    {
      hide Step;
      if !isOpen {
        return;
      }
      var n, frame := rings.Get(buffer.channel, 32);
      if n == 1 {
        var sent := buffer.Handle(Input(frame, at));
        written := written + sent;
      }
    }
  }
}
