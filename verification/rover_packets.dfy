/** The binary `RVRC` packets the simulator accepts: the sizes of the two
    structures they carry, and the decision, by length alone, of which
    structures a packet holds. */
module RoverPackets {
  import opened Util

  /** A `struct` format code the packet layouts use: `f` a 4-byte float,
      `?` a 1-byte bool, `B` an unsigned byte, `x` a pad byte. */
  predicate IsFormatCode(c: char)
  {
    c == 'f' || c == '?' || c == 'B' || c == 'x'
  }

  function CodeSize(c: char): (n: nat)
    requires IsFormatCode(c)
    ensures n == 1 || n == 4
  {
    if c == 'f' then 4 else 1
  }

  /** `struct.calcsize` in native mode: each item starts at a multiple of
      its own size (its alignment), and no padding is added at the end. */
  function CalcSize(format: string): (n: nat)
    requires forall i | 0 <= i < |format| :: IsFormatCode(format[i])
    decreases |format|
  {
    if |format| == 0 then 0
    else
      var before := CalcSize(format[..|format| - 1]);
      var size := CodeSize(format[|format| - 1]);
      AlignUp(before, size) + size
  }

  /** The first offset at or after `offset` that is a multiple of
      `alignment` (1 or 4 here). */
  function AlignUp(offset: nat, alignment: nat): (r: nat)
    requires alignment == 1 || alignment == 4
    ensures r >= offset && r % alignment == 0 && r - offset < alignment
  {
    if alignment == 1 || offset % 4 == 0 then offset else offset + (4 - offset % 4)
  }

  /** x, y, button, button A, button B, one pad byte. */
  const JOYSTICK_FORMAT: string := "ff???x"
  /** speed, steering, battery, temperature, mode, lights, camera, pad. */
  const ROVER_FORMAT: string := "ffffB??x"

  const JOYSTICK_SIZE: nat := 12
  const ROVER_SIZE: nat := 20
  const HEADER_SIZE: nat := 4

  /** The two sizes are what native `calcsize` gives for the layouts. */
  lemma PacketSizes()
    ensures CalcSize(JOYSTICK_FORMAT) == JOYSTICK_SIZE
    ensures CalcSize(ROVER_FORMAT) == ROVER_SIZE
  {
    JoystickSize();
    RoverSize();
  }

  lemma JoystickSize()
    ensures CalcSize(JOYSTICK_FORMAT) == JOYSTICK_SIZE
  {
    assert CalcSize(JOYSTICK_FORMAT[..0]) == 0;
    CalcSizeStep(JOYSTICK_FORMAT, 0);
    assert CalcSize(JOYSTICK_FORMAT[..1]) == 4;
    CalcSizeStep(JOYSTICK_FORMAT, 1);
    assert CalcSize(JOYSTICK_FORMAT[..2]) == 8;
    CalcSizeStep(JOYSTICK_FORMAT, 2);
    assert CalcSize(JOYSTICK_FORMAT[..3]) == 9;
    CalcSizeStep(JOYSTICK_FORMAT, 3);
    assert CalcSize(JOYSTICK_FORMAT[..4]) == 10;
    CalcSizeStep(JOYSTICK_FORMAT, 4);
    assert CalcSize(JOYSTICK_FORMAT[..5]) == 11;
    CalcSizeStep(JOYSTICK_FORMAT, 5);
    assert CalcSize(JOYSTICK_FORMAT[..6]) == 12;
    assert JOYSTICK_FORMAT[..6] == JOYSTICK_FORMAT;
  }

  lemma RoverSize()
    ensures CalcSize(ROVER_FORMAT) == ROVER_SIZE
  {
    assert CalcSize(ROVER_FORMAT[..0]) == 0;
    CalcSizeStep(ROVER_FORMAT, 0);
    assert CalcSize(ROVER_FORMAT[..1]) == 4;
    CalcSizeStep(ROVER_FORMAT, 1);
    assert CalcSize(ROVER_FORMAT[..2]) == 8;
    CalcSizeStep(ROVER_FORMAT, 2);
    assert CalcSize(ROVER_FORMAT[..3]) == 12;
    CalcSizeStep(ROVER_FORMAT, 3);
    assert CalcSize(ROVER_FORMAT[..4]) == 16;
    CalcSizeStep(ROVER_FORMAT, 4);
    assert CalcSize(ROVER_FORMAT[..5]) == 17;
    CalcSizeStep(ROVER_FORMAT, 5);
    assert CalcSize(ROVER_FORMAT[..6]) == 18;
    CalcSizeStep(ROVER_FORMAT, 6);
    assert CalcSize(ROVER_FORMAT[..7]) == 19;
    CalcSizeStep(ROVER_FORMAT, 7);
    assert CalcSize(ROVER_FORMAT[..8]) == 20;
    assert ROVER_FORMAT[..8] == ROVER_FORMAT;
  }

  /** Every item takes at least one byte, and no item with its alignment
      padding takes more than four. */
  lemma {:induction false} CalcSizeBounds(format: string)
    requires forall i | 0 <= i < |format| :: IsFormatCode(format[i])
    ensures |format| <= CalcSize(format) <= 4 * |format|
    decreases |format|
  {
    if |format| > 0 {
      var init := format[..|format| - 1];
      CalcSizeBounds(init);
      var before := CalcSize(init);
      var size := CodeSize(format[|format| - 1]);
      if size == 4 {
        AlignUpBelow(before, 4 * |init|);
      }
    }
  }

  /** Aligning to four never passes a multiple of four at or after the
      offset. */
  lemma AlignUpBelow(offset: nat, bound: nat)
    requires offset <= bound && bound % 4 == 0
    ensures AlignUp(offset, 4) <= bound
  {
  }

  /** The layout's first `k + 1` items end where its first `k` items end,
      aligned for item `k`, plus that item's size. */
  lemma CalcSizeStep(format: string, k: nat)
    requires forall i | 0 <= i < |format| :: IsFormatCode(format[i])
    requires k < |format|
    ensures CalcSize(format[..k + 1])
         == AlignUp(CalcSize(format[..k]), CodeSize(format[k])) + CodeSize(format[k])
  {
    assert format[..k + 1][..k] == format[..k];
  }

  /** The bytes `RVRC`. */
  const HEADER: Bytes := [82, 86, 82, 67]

  datatype PacketKind =
    | NoHeader        // fewer than four bytes: no binary processing
    | UnknownHeader   // four bytes or more that do not start with RVRC
    | RoverOnly       // the rover structure alone (a test packet)
    | Full            // joystick structure followed by rover structure
    | TooSmall        // RVRC, but too short for the rover structure

  /** The binary branch of `receive_data`, which looks only at the length
      and the first four bytes. */
  function ClassifyPacket(data: Bytes): (k: PacketKind)
    ensures k == NoHeader <==> |data| < HEADER_SIZE
    ensures k == UnknownHeader <==> |data| >= HEADER_SIZE && data[..HEADER_SIZE] != HEADER
    ensures k in {RoverOnly, Full, TooSmall} <==> IsPrefix(HEADER, data)
    ensures k == RoverOnly ==> HEADER_SIZE + ROVER_SIZE <= |data| < HEADER_SIZE + JOYSTICK_SIZE + ROVER_SIZE
    ensures k == Full ==> |data| >= HEADER_SIZE + JOYSTICK_SIZE + ROVER_SIZE
    ensures k == TooSmall ==> |data| < HEADER_SIZE + ROVER_SIZE
  {
    if |data| < HEADER_SIZE then NoHeader
    else if data[..HEADER_SIZE] != HEADER then UnknownHeader
    else if HEADER_SIZE + ROVER_SIZE <= |data| < HEADER_SIZE + JOYSTICK_SIZE + ROVER_SIZE then RoverOnly
    else if |data| >= HEADER_SIZE + JOYSTICK_SIZE + ROVER_SIZE then Full
    else TooSmall
  }

  /** The bytes each kind hands to `struct.unpack`, which raises unless it
      gets exactly the structure's size. */
  function RoverBytes(data: Bytes): (r: Bytes)
    requires ClassifyPacket(data) == RoverOnly
    ensures |r| == ROVER_SIZE && r == data[HEADER_SIZE..HEADER_SIZE + ROVER_SIZE]
  {
    data[HEADER_SIZE..HEADER_SIZE + ROVER_SIZE]
  }

  function FullBytes(data: Bytes): (r: (Bytes, Bytes))
    requires ClassifyPacket(data) == Full
    ensures |r.0| == JOYSTICK_SIZE && |r.1| == ROVER_SIZE
    ensures data[..HEADER_SIZE] + r.0 + r.1 == data[..HEADER_SIZE + JOYSTICK_SIZE + ROVER_SIZE]
  {
    var j := data[HEADER_SIZE..HEADER_SIZE + JOYSTICK_SIZE];
    var v := data[HEADER_SIZE + JOYSTICK_SIZE..HEADER_SIZE + JOYSTICK_SIZE + ROVER_SIZE];
    assert data[..HEADER_SIZE] + j + v == data[..HEADER_SIZE + JOYSTICK_SIZE + ROVER_SIZE];
    (j, v)
  }

  /** Among RVRC packets the length alone decides the kind: the three ranges
      cover every length, and the kind does not depend on the payload. */
  lemma KindDependsOnLengthOnly(a: Bytes, b: Bytes)
    requires IsPrefix(HEADER, a) && IsPrefix(HEADER, b) && |a| == |b|
    ensures ClassifyPacket(a) == ClassifyPacket(b)
    ensures ClassifyPacket(a) == RoverOnly
         <==> HEADER_SIZE + ROVER_SIZE <= |a| < HEADER_SIZE + JOYSTICK_SIZE + ROVER_SIZE
    ensures ClassifyPacket(a) == Full <==> |a| >= HEADER_SIZE + JOYSTICK_SIZE + ROVER_SIZE
    ensures ClassifyPacket(a) == TooSmall <==> |a| < HEADER_SIZE + ROVER_SIZE
  {
  }
}
