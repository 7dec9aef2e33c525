# RaadhusLED YTKJ wire format in Dafny

This project models the parts of RaadhusLED that produce the LED controller's
proprietary "YTKJ" wire format, and the renderer loop that feeds it:

- the frame-relay daemon's pixel remapper (`map_pixel`, `map_pixels`) and
  packet encoder (`payload_buffer`), with the one start-up test pattern, in
  `daemon_mapping.dfy` and `daemon_encoder.dfy`;
- the Java debug tool's single-packet encoder (`SimpleTouch.update`,
  `setPixelPayload`) in `simple_touch.dfy`;
- the shader renderer's frame pacing and shader-rotation state machine
  (`idle_func`) in `shader_idle.dfy`, and the way `read_shaders` builds its
  shader table in `shader_config.dfy`.

The wire format itself lives in `ytkj.dfy`. A chunk is the tag `YTKJ`, a
controller byte, the constants `0, 0x57, 0x05`, a descriptor count and a 0.
Descriptors follow, each a little-endian channel offset, a little-endian
length, and that many LED bytes. Every chunk after the first sits behind eight
zero bytes. The same file holds a decoder. Both encoders are stated against
it: what they write decodes back to the chunks they meant.

The daemon's encoder is modelled in two passes. Its control flow (channel
offset, carry, chunk index, LED count) never looks at the LED bytes. So
`Layout` replays that control flow over the compile-time constants as a list
of spans. `Render` then cuts the mapped frame along those spans. The layout
is computed exactly:

- 4 chunks of 3, 3, 3 and 2 descriptors;
- 11 descriptors at channels 0, 2048, 4096, 4178, 6144, 8192, 8356, 10240,
  12288, 12534 and 14336;
- chunk sizes 1472, 1472, 1472 and 1140.

`payload_buffer` writes 5580 bytes but returns 5556, because the returned sum
leaves out the three pads. That is kept as written. `led_thread` sends that
many bytes, so every datagram lacks the last 24 LED bytes of the frame
(column 31, one of the two columns beyond the 30 physical ones).

The descriptor split test compares the wanted byte count with the room left
after the offset field only, not after the length field. A descriptor that is
not split may therefore end two bytes past `MAX_PAYLOAD_SIZE` (see
`DaemonEncoder.DescriptorReach`). With the shipped constants no descriptor
comes that close, and every chunk stays within 1472 bytes
(`DaemonEncoder.EncodeChunkShapes`).

Behaviour worth noting:

- The daemon has no ring buffer, lock, condition variable, segment table or
  column permutation. `led_thread` re-encodes the shared screen buffer every
  tick.
- The encoder does not send all chunks it writes: the count it returns omits
  the pads.

## Model

| member | source | states |
|---|---|---|
| `Bytes.LE16RoundTrip` | raadhus_daemon.c:100-101 | Reading back the two bytes a 16-bit field is written as (`x & 0xff`, then `(x >> 8) & 0xff`) gives the value exactly when it lies in 0..65535 |
| `Ytkj.FrameRoundTrip` | raadhus_daemon.c:72-96 | Decoding an encoded frame — header per chunk, descriptor count in byte 8, an eight-byte zero pad before every later chunk — gives back the chunks |
| `Ytkj.ChunkRoundTrip` | raadhus_daemon.c:80-96 | A chunk's header and descriptors decode back to the chunk, leaving whatever follows untouched |
| `Ytkj.DescriptorsRoundTrip` | raadhus_daemon.c:99-133 | Offset, length and data triples decode back to the descriptors written |
| `Ytkj.FrameLength` | raadhus_daemon.c:72-78 | A frame is its chunks plus eight bytes for every chunk after the first |
| `Serpentine.SerpentineBijective` | raadhus_daemon.c:43-52 | For an odd strip length the row visited k-th and the position of row r are inverse bijections of 0..n-1 |
| `Serpentine.StripRowsOdd` | raadhus_daemon.c:43-52 | For an odd strip length n, the two row runs visit exactly n rows, the k-th being 2k in the first half and the odd rows downward after |
| `Serpentine.StripRowsEvenSkipsOddRows` | raadhus_daemon.c:43-52 | For an even strip length the same loops visit only even rows, so odd rows are never shown; coverage needs an odd strip length |
| `DaemonMapping.MapPixel` | raadhus_daemon.c:29-35 | Pixel (ix, iy) is the three bytes starting at `(ix + iy * 32) * 3`, all within the first 5472 screen bytes |
| `DaemonMapping.StripFollowsLoops` | raadhus_daemon.c:43-52 | Pixel k of strip ix is what `map_pixel` copies for the k-th row the two row loops visit |
| `DaemonMapping.GeometryAgrees` | raadhus_daemon.c:19-27 | 57 pixels by 4 strips by 3 bytes is 684 bytes a port; 8 ports give 5472 bytes; a strip is 171 bytes |
| `DaemonMapping.MappedAt` | raadhus_daemon.c:29-55 | Triple 57c+k of the mapped frame is the three screen bytes at `(c + row * 32) * 3`, with row 2k for k ≤ 28 and 55 − 2(k − 29) after |
| `DaemonMapping.MappedPixel` | raadhus_daemon.c:29-35 | Triple 57c+k of the mapped frame is what `map_pixel` copies for column c and the row visited k-th: the three bytes at `(c + row * 32) * 3` |
| `DaemonMapping.MappedCoversScreen` | raadhus_daemon.c:37-56 | Every pixel of the 32 × 57 screen lands in the mapped frame, pixel (c, r) at triple 57c + its serpentine position |
| `DaemonMapping.MappedReadsOnlyFrame` | raadhus_daemon.c:21-27 | Screens that agree on their first 5472 bytes map alike: nothing past the frame is read |
| `DaemonMapping.MapStrip` | raadhus_daemon.c:43-52 | The two row loops of one strip produce that column's pixels in serpentine order |
| `DaemonMapping.MapPixels` | raadhus_daemon.c:37-56 | The loop over 32 columns, four strips per port, writes exactly the 5472-byte mapped frame |
| `DaemonMapping.StartupPixel` | raadhus_daemon.c:219-226 | After the start-up loop pixel (x, y) holds red y, green x, blue 0 |
| `DaemonMapping.StartupPatternMapped` | raadhus_daemon.c:219-226 | Until a frame arrives the strips show that pattern in wiring order: triple 57c+k is [row, c, 0] for the row visited k-th |
| `DaemonEncoder.AlignUp` | raadhus_daemon.c:119-120 | `(off & ~2047) + 2048` is the next multiple of 2048 strictly above the offset |
| `DaemonEncoder.DescriptorStep` | raadhus_daemon.c:99-134 | A split descriptor takes `bytesLeft − 2` bytes, advances the offset by them and carries the rest; a whole one takes the carry or a full port, jumps to the next port boundary and clears the carry |
| `DaemonEncoder.DescriptorReach` | raadhus_daemon.c:103-115 | A split descriptor fills its chunk to exactly 1472 bytes; one that is not split can end up to 1474, and does when it wants exactly `bytesLeft` bytes |
| `DaemonEncoder.FillChunk` | raadhus_daemon.c:99-134 | The inner loop emits at least one descriptor, starting at the current LED count, and makes progress while room remains |
| `DaemonEncoder.Chunks` | raadhus_daemon.c:68-137 | The outer loop emits at least one chunk, each with at least one descriptor, the first starting at the current LED count |
| `DaemonEncoder.Layout` | raadhus_daemon.c:68-137 | The frame is laid out as 4 chunks of sizes 1472, 1472, 1472, 1140 holding 11 descriptors at the listed offsets, lengths and frame positions |
| `DaemonEncoder.Render` | raadhus_daemon.c:80-133 | One chunk per planned chunk, each for controller 2, encodable, with one descriptor per planned span |
| `DaemonEncoder.LayoutFits` | raadhus_daemon.c:111-115 | The unguarded `bytesLeft − 2` never goes negative for these constants: every descriptor copies at least one byte |
| `DaemonEncoder.LayoutTiles` | raadhus_daemon.c:128-137 | The descriptors cover bytes 0..5472 of the mapped frame one after the other, with no gap or overlap |
| `DaemonEncoder.StepKeepsPortAlignment` | raadhus_daemon.c:111-122 | Offset and carry stay tied to the LED count, so a descriptor that starts port p is addressed at 2048p |
| `DaemonEncoder.LayoutAddressesPorts` | raadhus_daemon.c:111-122 | In every chunk, each descriptor that starts a port carries channel 2048 times the port number |
| `DaemonEncoder.OffsetsIncrease` | raadhus_daemon.c:100-122 | The 11 channel offsets strictly increase in emission order, and each port 0..7 has a descriptor at frame byte 684p addressed at 2048p |
| `DaemonEncoder.Encode` | raadhus_daemon.c:68-139 | The written bytes decode, pads and all, to the frame's chunks, and the returned count is the written length less eight for every chunk after the first |
| `DaemonEncoder.EncodeCarriesFrame` | raadhus_daemon.c:128-137 | The descriptors' data, read in emission order, is exactly the mapped frame |
| `DaemonEncoder.EncodeChunkShapes` | raadhus_daemon.c:85-134 | Every chunk is for controller 2 with 3, 3, 3 and 2 descriptors, none is longer than 1472 bytes, and the first three are exactly 1472 |
| `DaemonEncoder.ChunkBoundaries` | raadhus_daemon.c:72-96 | The headers sit at bytes 0, 1480, 2960 and 4440 with counts 3, 3, 3, 2, and zero pads fill 1472..1480, 2952..2960 and 4432..4440 |
| `DaemonEncoder.ReturnedCountOmitsPads` | raadhus_daemon.c:135-139 | 5580 bytes are written but 5556 returned, the difference being the three pads, and the unreturned tail is the last 24 LED bytes |
| `DaemonEncoder.PayloadBuffer` | raadhus_daemon.c:61-140 | Maps the screen and encodes it: 5580 bytes written, 5556 returned, and the written bytes decode to the frame's chunks, whose data is the mapped frame |
| `DaemonEncoder.LedTick` | raadhus_daemon.c:169-182 | The datagram sent is 5556 bytes long and is the written payload without its last 24 LED bytes |
| `SimpleTouch.Colour` | java-debug/SimpleTouch.java:303-319 | The colour is black, 0x7f, 0x7f00 or 0x7f0000, picked for a non-negative value by its residue mod 4 |
| `SimpleTouch.PixelBytes` | java-debug/SimpleTouch.java:320-322 | Three bytes that, read low byte first, are the colour |
| `SimpleTouch.ColourByResidue` | java-debug/SimpleTouch.java:303-319 | A non-negative value picks black, 0x7f, 0x7f00 or 0x7f0000 by its residue mod 4; a negative one is black when divisible by 4 and 0x7f0000 otherwise |
| `SimpleTouch.JavaRem4` | java-debug/SimpleTouch.java:306 | Java's `% 4` keeps the dividend's sign and is congruent to it mod 4 |
| `SimpleTouch.PixelBytesLittleEndian` | java-debug/SimpleTouch.java:320-322 | Each of the three bytes written is 0 or 0x7f, and at most one of them is lit |
| `SimpleTouch.PortsInUse` | java-debug/SimpleTouch.java:251-255 | `portsInUse` is the minimum of what is left of the ports in use and a controller's eight |
| `SimpleTouch.PortRowsOrder` | java-debug/SimpleTouch.java:271-278 | A port's rows are `PORT_MAP[2p] − 1` downward by 2, then 0 upward by 2 below `PORT_MAP[2p+1]` |
| `SimpleTouch.ColumnBytesAt` | java-debug/SimpleTouch.java:271-278 | Pixel j of a column run is the colour of screen value `ix + rows[j] * xRes` |
| `SimpleTouch.TwoColumnsAt` | java-debug/SimpleTouch.java:271-288 | A port emits column ix in its row order, then column ix + 1 in the same order |
| `SimpleTouch.DeclaredLengthMatches` | java-debug/SimpleTouch.java:263-288 | With the even `PORT_MAP`, the declared length `(PORT_MAP[2p] + PORT_MAP[2p+1]) * 3` equals the bytes written for the port |
| `SimpleTouch.ShippedPacketFits` | java-debug/SimpleTouch.java:235-289 | The one controller's header and two ports fit the array, filling its first 648 bytes |
| `SimpleTouch.Sends` | java-debug/SimpleTouch.java:244-300 | One whole-array packet per remaining controller; the first starts with that controller's header and ports and keeps the array's earlier bytes after them |
| `SimpleTouch.Update` | java-debug/SimpleTouch.java:234-301 | One 2702-byte packet per controller; the first is the controller's 648 written bytes followed by zeros |
| `SimpleTouch.UpdateSendsOnePacket` | java-debug/SimpleTouch.java:234-301 | One whole 2702-byte packet is sent: header `YTKJ 1 0 0x57 0x05 2 0`, port 0 at channel 0 over columns 0-1, port 1 at channel 2048 over columns 2-3, zeros after |
| `SimpleTouch.UpdateDecodes` | java-debug/SimpleTouch.java:234-301 | The packet decodes as one chunk for controller 1 with the two ports' descriptors, followed by zeros |
| `ShaderIdle.Start` | shader/raadhus_shader.c:104-110 | After `read_shaders` succeeds the renderer runs the first shader, activated now, with no transition and the next frame due at once, and satisfies the invariant |
| `ShaderIdle.Pace` | shader/raadhus_shader.c:123-131 | After pacing, the next frame lies between 49 and 97 ms after now |
| `ShaderIdle.PaceKeepsGrid` | shader/raadhus_shader.c:125-131 | A frame less than a frame time ahead keeps the 49 ms grid; a late or early one resynchronises to now + 49 |
| `ShaderIdle.Transition` | shader/raadhus_shader.c:135-151 | The shader index and activation time change only at the switch tick, and then to now |
| `ShaderIdle.Idle` | shader/raadhus_shader.c:121-152 | An idle call always leaves the next frame at least a frame time ahead |
| `ShaderIdle.IdleKeepsInv` | shader/raadhus_shader.c:135-151 | Offset in 0..56, direction in {−1, 0, 1}, offset 0 exactly when direction 0, and the current shader in range are kept |
| `ShaderIdle.TransitionStarts` | shader/raadhus_shader.c:148-151 | An idle renderer starts a transition exactly when the dwell has run out, at offset 1 rising |
| `ShaderIdle.SwitchAtPeak` | shader/raadhus_shader.c:136-144 | The shader changes exactly when the rising offset reaches 56, to the next one round the table, and the fade turns downward |
| `ShaderIdle.TransitionEnds` | shader/raadhus_shader.c:145-146 | A falling offset drops by one and the direction becomes 0 exactly when it reaches 0 |
| `ShaderIdle.Rising` | shader/raadhus_shader.c:135-137 | Below the peak the offset rises by one a tick with no switch |
| `ShaderIdle.Falling` | shader/raadhus_shader.c:135-147 | After the peak the offset falls by one a tick with no switch, ending the transition at 0 |
| `ShaderIdle.FullTransition` | shader/raadhus_shader.c:135-151 | A whole transition takes 112 ticks, switches exactly once, to the next shader, and ends idle with the activation time of the switch tick |
| `ShaderIdle.RunAppend` | shader/raadhus_shader.c:121-152 | Running two stretches of ticks one after the other is running them together, and their switches add up |
| `ShaderConfig.FirstFailure` | shader/raadhus_shader.c:254-257 | The index of the first shader file that failed to set up, or the line count when none did |
| `ShaderConfig.EntriesGrow` | shader/raadhus_shader.c:244-263 | The entries read from a prefix of the file are a prefix of those read from a longer one |
| `ShaderConfig.ReadShaders` | shader/raadhus_shader.c:230-272 | The table is the entries before the first failure, at most 128; the result is −1 exactly when the file is missing, the table is empty, or a failure is reached before 128 entries |

## Left out

- Sockets, `bind`, `recvfrom`, `sendto` and multicast in the daemon, the Java tool and the renderer: I/O, not format. The datagram sent is the modelled byte sequence.
- The unsynchronised sharing of the daemon's screen buffer between the receive loop and `led_thread`: a data race with no protocol to model. `LedTick` takes the screen as it stands.
- `usleep` in the daemon and the renderer: timing only; the renderer's clock readings are parameters of each tick.
- Integer width: offsets, counts and times are unbounded integers. The daemon's values stay far below 2^31, and the renderer's `long` times are not modelled for overflow.
- The daemon's 15000-byte buffers: the screen is any sequence of at least 5472 bytes, and the model proves that nothing beyond them is read.
- The Swing GUI of the Java tool: painting, the mouse handler, the resolution text fields (the model fixes 4 × 58) and the `Math.sin` generator thread (floating point).
- `SimpleTouch.Sends`: handles any number of controllers and threads `ix` from one controller to the next, but it requires each controller's ports and columns to exist; with the shipped constants that is one controller with two ports.
- OpenGL and GLUT rendering in the renderer (`draw`, `glReadPixels`, alpha blending) and the GL wrappers in `shader/util.c` and `shader/osaa.c`.
- The dwell test of `idle_func` compares a float against the clock; it is a boolean per tick (`Tick.expired`).
- `read_shaders` file reading, the `"%f %s"` scan, `atoi` and `setup_shader`: each line arrives already classified as `ShaderConfig.Line`, and the dwell is stored as a `real` without float rounding.
- `set_shader` on a switch and `glutPostRedisplay`: GL calls with no state in the model.
