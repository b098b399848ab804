/** The 72-byte update message: its header checksum is computed over the whole message
    with the checksum field zero, and is then stored into that field. */
module Message {
  import opened CrcWords
  import opened Crc
  import opened CrcCode

  const MESSAGE_SIZE: nat := 72
  const ETHERNET_CHANNEL: bv8 := 0

  function Cleared(m: seq<bv8>): (r: seq<bv8>)
    requires |m| == MESSAGE_SIZE
    ensures |r| == MESSAGE_SIZE
  {
    Stored(m, 0, 0)
  }

  function Sealed(m: seq<bv8>): (r: seq<bv8>)
    requires |m| == MESSAGE_SIZE
    ensures |r| == MESSAGE_SIZE
  {
    Stored(m, 0, EthernetCrc(Cleared(m)))
  }

  /** What the receiver tests. */
  predicate Intact(m: seq<bv8>)
    requires |m| == MESSAGE_SIZE
  {
    Loaded(m, 0) == EthernetCrc(Cleared(m))
  }

  /** The last step of every message packer: headerCrc = 0, then the checksum of the message
      is written through a pointer into that same message. */
  method Seal(msg: array<bv8>) returns (ok: bool)
    requires msg.Length == MESSAGE_SIZE
    modifies msg
    ensures ok && msg[..] == Sealed(old(msg[..]))
  {
    hide EthernetCrc;
    StoreWord(msg, 0, 0);
    assert Window(msg[..], 0, MESSAGE_SIZE) == msg[..];
    var status := Generate(ETHERNET_CHANNEL, msg, 0, MESSAGE_SIZE, msg, 0);
    ok := status == Success;
  }

  /** The receiver's check: the field is saved, zeroed and compared. */
  method Check(msg: array<bv8>) returns (ok: bool)
    requires msg.Length == MESSAGE_SIZE
    modifies msg
    ensures ok == Intact(old(msg[..]))
    ensures msg[..] == Cleared(old(msg[..]))
  {
    hide EthernetCrc, Joined;
    var received := Joined(msg[0], msg[1], msg[2], msg[3]);
    StoreWord(msg, 0, 0);
    assert Window(msg[..], 0, MESSAGE_SIZE) == msg[..];
    var status := Verify(ETHERNET_CHANNEL, msg, 0, MESSAGE_SIZE, received);
    ok := status == Success;
  }

  lemma SealedIsIntact(m: seq<bv8>)
    requires |m| == MESSAGE_SIZE
    ensures Intact(Sealed(m))
    ensures Sealed(m)[4..] == m[4..]
  {
    hide EthernetCrc, Loaded, Byte0, Byte1, Byte2, Byte3;
    LoadStored(m, 0, EthernetCrc(Cleared(m)));
  }

  /** A sealed message in which anything changed within four consecutive bytes of the body
      is rejected. */
  lemma TamperedBodyRejected(m: seq<bv8>, at: nat, u: seq<bv8>)
    requires |m| == MESSAGE_SIZE && 4 <= at && at + |u| <= MESSAGE_SIZE && |u| <= 4
    requires u != m[at..at + |u|]
    ensures !Intact(Sealed(m)[..at] + u + Sealed(m)[at + |u|..])
  {
    hide EthernetCrc, Joined, Byte0, Byte1, Byte2, Byte3;
    var sealed := Sealed(m);
    var received := sealed[..at] + u + sealed[at + |u|..];
    LoadStored(m, 0, EthernetCrc(Cleared(m)));
    assert Loaded(received, 0) == Loaded(sealed, 0);
    var before, after := Cleared(m)[..at], Cleared(m)[at + |u|..];
    assert Cleared(m) == before + m[at..at + |u|] + after;
    assert Cleared(received) == before + u + after;
    WindowErrorDetected(before, m[at..at + |u|], u, after);
  }

  /** So is one whose checksum field alone changed. */
  lemma TamperedChecksumRejected(m: seq<bv8>, crc: bv32)
    requires |m| == MESSAGE_SIZE && crc != EthernetCrc(Cleared(m))
    ensures !Intact(Stored(Sealed(m), 0, crc))
  {
    hide EthernetCrc, Loaded, Byte0, Byte1, Byte2, Byte3;
    LoadStored(m, 0, EthernetCrc(Cleared(m)));
    LoadStored(Sealed(m), 0, crc);
  }
}
