/** The ARK1 session marker: `ARK1 (4B) || uuid (16B)`, and what may follow it in the same packet. */
module Ark1 {
  import opened Wrappers
  import opened Bytes

  const ARK1_MAGIC: bytes := [0x41, 0x52, 0x4B, 0x31]
  const UUID_LEN: nat := 16
  const MARKER_LEN: nat := 20

  function Ark1Payload(uuid: bytes): bytes {
    ARK1_MAGIC + uuid
  }

  function ParseArk1(payload: bytes): (uuid: Option<bytes>)
    ensures uuid.Some? ==> |payload| >= MARKER_LEN && |uuid.value| == UUID_LEN
  {
    if |payload| < MARKER_LEN || payload[..4] != ARK1_MAGIC then None
    else Some(payload[4..MARKER_LEN])
  }

  lemma ParseInvertsPayload(uuid: bytes, extra: bytes)
    requires |uuid| == UUID_LEN
    ensures var payload := Ark1Payload(uuid) + extra;
            ParseArk1(payload) == Some(uuid) && payload[MARKER_LEN..] == extra && payload[..4] == ARK1_MAGIC
  {
  }

  /** Exactly the payloads of 20 bytes or more that start with the marker carry a uuid, which is behind it. */
  lemma MarkerIff(payload: bytes, uuid: bytes)
    requires |uuid| == UUID_LEN
    ensures ParseArk1(payload) == Some(uuid)
        <==> |payload| >= 20 && payload[..20] == [0x41, 0x52, 0x4B, 0x31] + uuid
  {
    if |payload| >= 20 && payload[..20] == [0x41, 0x52, 0x4B, 0x31] + uuid {
      assert payload[..4] == payload[..20][..4] && payload[4..20] == payload[..20][4..];
    }
    if ParseArk1(payload) == Some(uuid) {
      assert payload[..20] == payload[..4] + payload[4..20];
    }
  }
}
