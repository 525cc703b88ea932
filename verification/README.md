# AVANGARD in Dafny

A model of the stateful algorithms inside the AVANGARD tunnel, with proofs of what they promise:

- **Replay filter** (`PackedBits`, `Replay`, `ReplaySteps`, `ReplayBound`). `Replay` is the code: two packed
  bloom filters that rotate, as classes over word arrays, each method tied to a function on the abstract
  filter. `ReplaySteps` lets any number of `Check` calls interleave between the source's critical sections,
  each acting on the clock reading it took at its start; the clock itself never goes back. `ReplayBound` proves exactly when no
  (timestamp, nonce) pair is ever accepted twice.
- **SNI peek** (`Sni`, `SniGrammar`, `PeekConn`, `Decoy`). The cursor parser for one TLS ClientHello, a grammar
  of the same messages and records given by their serialisation, a proof that the two agree on every stream, the
  adapter that puts the peeked bytes back in front of the connection, and the decoy forwarder with its two
  competing copies as a state machine.
- **Byte stream layers** (`Pipe`, `Noise`, `Header`, `Tunnel`). A message queue read as a stream, which is a
  `wsStream` and also any connection that cuts its bytes into pieces as it likes, and whose link may break after
  any number of bytes; exact reads, Noise frames and tunnel headers on top of it; the server's handling of a
  whole client stream; a session with both of its ends.
- **Fan-in and session reuse** (`FanIn`, `Smux`, `SmuxServer`). Goroutines, a bounded channel and a done flag as a
  state machine; a client that caches one outer session and redials; the server's sessions, each with a goroutine
  that hands its streams into one channel.
- **Blocklist** (`Normalize`, `Blocklist`) and **port text** (`Decimal`).

Times are integers in nanoseconds. SHA-256, HMAC-SHA256, FNV-1a and the Noise engine are function arguments:
nothing is assumed of them but that equal inputs give equal outputs. A clock reading, a network answer and the
way a stream is cut into pieces are arguments or arbitrary initial state.

## What the proofs found

- The filter is safe under concurrency exactly when it accepts nothing at all or `rate >= 2*skew + lag`, where
  `lag` bounds the time from a call's clock reading to its locked re-check (`SafeExactly`). With the defaults
  that is a lag of up to 50 s. The runs that fail keep every call within the lag.
- `abs` of the least 64-bit duration is negative, so the skew test also passes on timestamps 2^63 ns or more
  ahead of the clock (`SkewTestIsExact`); with such timestamps no setting is safe
  (`UnboundedTimestampsAreNeverSafe`). The safety results assume timestamps nearer than that.
- Rounding the bit count wraps to 0 for counts above 2^64 - 64, and only there (`RoundingIsExact`).
- A server_name list under 5 bytes, such as a lone one-byte name, reads as no name (`OneByteNameIsMissed`).
- The comment on `peekClientHelloSNI` says malformed input gives no error and that the record is not consumed.
  The code returns an error for most malformed input and consumes the record; the model follows the code.
- When a record body is cut short, the replayed bytes are the inbound bytes followed by zeros, one for each
  byte missing (`ReplayIsTheStream`).
- `writeFrame` writes an empty frame that `readFrame` refuses (`EmptyFrameIsRefused`).
- An IPv6 header is 37 bytes, so the source's remark that IP headers fit 32 holds for IPv4 only
  (`EncodedLength`).
- `normalize` is not idempotent: "x://f./" gives "f.", and that gives "f" (`NotIdempotent`). It is exactly on the
  inputs where the host in front of the first of "/?#:" does not end in a dot, or, if none of them follows the
  scheme, where the text does not end in two dots (`IdempotentExactly`).
- A host without a scheme can get lost: "a/b://c" gives "c" (`BareHostCanBeLost`), since the first "://" anywhere
  is taken for the scheme's. An input gives a host exactly when what follows the first "://", or all of it if
  there is none, is that host, decorated or not (`NormalisesToHostExactly`, `BareHostExactly`).
- The comment test of `LoadDomains` never keeps a line out that was not empty anyway
  (`KeepsExactlyNonEmptyEntries`): a line "# see http://host" blocks the host (`CommentIsLoadedExactly`).
- The decoy need not get what the client sends: the forwarder leaves when either of its two copies ends. What a
  dialled decoy ends up with can be any prefix of the stream, even with its whole answer delivered, and nothing
  else (`OutcomesExactly`); it is sure of all exactly when there is nothing to send (`SureOfAllExactly`). In one
  run it gets everything exactly when the copy towards it had drained its source at the exit
  (`DecoyGetsAllExactly`).
- `parsePort` reduces modulo 2^16 instead of refusing large numbers (`OutOfRangePortsWrap`).

## Model

| member | source | states |
|---|---|---|
| PackedBits.OrBitSetsOne | pkg/replay/bloom.go:170-175 | OR-ing a one-bit mask into a word sets that bit and no other |
| PackedBits.SetOneBit | pkg/replay/bloom.go:170-175 | the update of one word of the packed array adds exactly one position to the set the array stands for |
| PackedBits.TestBitIsBinary | pkg/replay/bloom.go:180-181 | a bit test reads that binary digit of the word |
| Replay.RoundingIsExact | pkg/replay/bloom.go:71-74 | for every nonzero uint64 the rounding gives the least multiple of 64 above, except that it gives 0 above 2^64 - 64 |
| Replay.Bloom.Add | pkg/replay/bloom.go:170-175 | adds exactly the positions of the key to the set of bits |
| Replay.Bloom.Contains | pkg/replay/bloom.go:177-185 | true exactly when every position of the key is set |
| Replay.Filter.constructor | pkg/replay/bloom.go:67-98 | two empty blooms over the rounded, defaulted options, first rotation one period ahead, for every 64-bit bit count |
| Replay.ConfigureExactly | pkg/replay/bloom.go:67-83 | each option: zero takes its default, given as a number, anything else is kept in its own field, the bit count rounded up |
| Replay.Filter.MaybeRotate | pkg/replay/bloom.go:130-138 | the whole new abstract filter: rotates exactly when the reading has reached the rotation time |
| Replay.Filter.Check | pkg/replay/bloom.go:103-127 | verdict and whole new abstract filter of one call: skew test, rotation, probe, insertion |
| Replay.DigestInputsTellTuplesApart | pkg/replay/bloom.go:141-150 | two tuples feed the hash the same bytes exactly when the nonces agree and the timestamps agree modulo 2^64 |
| Replay.DoubleHashing | pkg/replay/bloom.go:187-193 | a digest that opens with the big-endian uint64s a and b owns the bits (a + i*b) mod 2^64 mod m |
| Replay.BloomIdxIsBitOf | pkg/replay/bloom.go:141-193 | the bits of a tuple, on the bytes of the SHA-256 of its timestamp and nonce |
| Replay.VerdictExactly | pkg/replay/bloom.go:103-138 | one call, bit by bit: skewed exactly outside the window, refused exactly when one bloom, after a rotation that is due, holds every bit the tuple owns, and an acceptance adds exactly those bits |
| Replay.SkewTestIsExact | pkg/replay/bloom.go:104-107 | with saturating subtraction and the 64-bit abs, the test passes exactly within the skew, or 2^63 ns and more ahead, or always if the skew is the largest duration |
| Replay.BitsAreTheAddedPositions | pkg/replay/bloom.go:170-193 | after any sequence of adds a bit is set exactly when it was before or some added key hashes to it |
| Replay.AddsDependOnTheKeySetOnly | pkg/replay/bloom.go:170-175 | adds commute and repeat without effect: the bits depend on the set of keys added only |
| ReplaySteps.StepKeepsInv | pkg/replay/bloom.go:103-138 | every step of any interleaving keeps: bits are exactly those of the keys of the two generations, and each accepted key is current, previous, or two rotations gone with the rotation time to show for it |
| ReplaySteps.RotateAtIsALastReading | pkg/replay/bloom.go:130-138 | in every run the next rotation is due one period after the start, or after the reading of a named event of the run that rotated |
| ReplaySteps.AcceptedIsTraced | pkg/replay/bloom.go:119-138 | every accepted call was accepted at an event of the run, and from there its key moves from the current to the previous generation and out, once for each rotation that takes effect |
| ReplaySteps.AcceptedStaysRejected | pkg/replay/bloom.go:103-138 | in every reachable state an accepted tuple still hits, unless two rotations took effect after the very event that accepted it, the later by a call whose reading is more than a period beyond the accepted one's |
| ReplaySteps.RefinesTwoGenerations | pkg/replay/bloom.go:130-138 | in every reachable state each bloom holds exactly the bits of its generation's keys, so every key of either generation is reported |
| ReplaySteps.GenerationsExactly | pkg/replay/bloom.go:119-138 | in every run the current generation holds exactly the keys accepted since the last rotation to take effect, the previous one exactly those accepted between the last two |
| ReplaySteps.RefusedExactly | pkg/replay/bloom.go:112-126 | in every run a probe or insertion refuses its call if and only if every bit its tuple owns belongs to tuples accepted since the last rotation, or every one to tuples accepted between the last two; otherwise the call goes on, or is accepted |
| ReplaySteps.SkewBoundsReadings | pkg/replay/bloom.go:104-107 | two calls that pass the skew test on one timestamp read the clock at most twice the skew apart |
| ReplaySteps.InsertFindsEarlierAccept | pkg/replay/bloom.go:119-124 | in a state of the invariant, the locked re-check of a tuple another call got accepted always hits, under the bound |
| ReplaySteps.RunNeverDoublyAccepts | pkg/replay/bloom.go:119-126 | in every interleaving, if the period is at least twice the skew plus the lag, no tuple is accepted by two calls |
| ReplayBound.ConfigureNeverLeavesRateZero | pkg/replay/bloom.go:67-83 | a filter made by New has a positive word-aligned size and no zero setting |
| ReplayBound.ForgottenAfterRejection | pkg/replay/bloom.go:103-138 | a run in which a tuple is accepted, rejected by a call that rotates, and accepted again after the next rotation, every call done within the lag |
| ReplayBound.ForgottenByAWaitingCall | pkg/replay/bloom.go:103-138 | a run in which a tuple is accepted and presented again at once by a call that two rotations let in, every call within the lag |
| ReplayBound.SafeExactly | pkg/replay/bloom.go:103-138 | for every configuration and lag, and whether the lag bounds every step of every call or only insertions: no run accepts a tuple twice if and only if there are no hashes, the skew is negative, or the period is at least twice the skew plus the lag |
| ReplayBound.DefaultsTolerateFiftySeconds | pkg/replay/bloom.go:29-35 | the default configuration is safe exactly for lags up to 50 s |
| ReplayBound.UnboundedTimestampsAreNeverSafe | pkg/replay/bloom.go:152-157 | if timestamps may be 2^63 ns ahead, every configuration that can accept at all accepts some tuple twice |
| ReplayBound.SequentialCallsAreARun | pkg/replay/bloom.go:103-127 | calls made one after another are a run of the step model with the same verdicts and the same final filter |
| ReplayBound.ThreeCalls | pkg/replay/bloom.go:103-138 | one tuple presented three times, with two rotations, is accepted, rejected and accepted again |
| ReplayBound.SafeInSequenceExactly | pkg/replay/bloom.go:103-127 | calls one after another never accept a tuple twice if and only if there are no hashes, the skew is negative, or the period is at least twice the skew |
| Pipe.ClipAppend | pkg/transport/ws/ws.go:280-285 | writing two pieces to a link that may break takes what writing them in one takes, and fails alike |
| Pipe.Pipe.Write | pkg/transport/ws/ws.go:280-285 | one more message, or as much of it as the link still takes and an error; everything written stays equal to everything read, then the buffer, then the queue |
| Pipe.Pipe.Read | pkg/transport/ws/ws.go:265-278 | hands over the next bytes of the stream in place, loses none, keeps the conservation law; an error only when nothing is left |
| Pipe.ReadFull | pkg/protocol/header.go:95-98 | however the stream is cut, takes exactly the bytes asked for, or all there are with the right error, and leaves the rest |
| Pipe.TakenExactly | pkg/protocol/header.go:95-98 | an exact read yields a front and a rest if and only if the front has that length and the two make the stream |
| Pipe.TakenErrorExactly | pkg/protocol/header.go:95-98 | an exact read fails if and only if the stream is shorter, uses it up, and reports a clean end only at its very start |
| Pipe.CopyAll | pkg/tunnel/server.go:106-110 | everything left in the source reaches the destination, in order, or as much as its link takes; it succeeds exactly when all fits |
| Noise.WriteFrame | pkg/auth/noise.go:152-162 | length then body as two messages, or nothing at all above 65535 bytes; on a link that breaks, the front of them and an error |
| Noise.ReadFrame | pkg/auth/noise.go:164-178 | result and remaining stream are those of the frame function, for every way the stream is cut |
| Noise.FrameRoundTrip | pkg/auth/noise.go:152-178 | reading yields body b and rest r if and only if the stream is the frame of b, of 1 to 65535 bytes, followed by r |
| Noise.EmptyFrameIsRefused | pkg/auth/noise.go:169-172 | the frame of an empty body is an error to the reader |
| Noise.FrameErrorExactly | pkg/auth/noise.go:164-178 | which streams hold no frame, with which error and what left: a length of zero, or fewer bytes than the two first announce |
| Noise.ServerHandshake | pkg/auth/noise.go:123-140 | consumes one frame, then sends one frame exactly when the engine accepts the first, and succeeds exactly when that frame is taken whole |
| Noise.RepliesExactly | pkg/auth/noise.go:123-140 | the server sends the frame of m exactly when its stream opens with a frame to which the engine answers m, and nothing otherwise |
| Noise.ClientHandshake | pkg/auth/noise.go:81-97 | sends one frame, then consumes one frame and gives it to the engine, which may refuse it; touches neither stream beyond that |
| Noise.AnsweredExactly | pkg/auth/noise.go:87-97 | the client succeeds if and only if its stream opens with a frame of 1 to 65535 bytes that the engine takes; it refuses exactly the frames the engine does not take |
| Header.Decode | pkg/protocol/header.go:93-125 | result and remaining stream are those of the decoding function, errors included, for every way the stream is cut |
| Header.EncodedLength | pkg/protocol/header.go:71-89 | when encoding succeeds, exactly; lengths 25, 37 and 22 + n; the length guard never fires |
| Header.EncodeErrorExactly | pkg/protocol/header.go:61-208 | which headers cannot be encoded, and with which error |
| Header.EncodingOnTheWire | pkg/protocol/header.go:71-89 | an encoding position by position: version, 16 token bytes, command 1 to 4, address type 1, 3 or 4, length for type 3, address, port high byte first |
| Header.DecodeErrorExactly | pkg/protocol/header.go:93-208 | which streams the decoder refuses, by their bytes, with which error and what left |
| Header.AddrRoundTrip | pkg/protocol/header.go:152-208 | an address decodes to a with rest r if and only if the stream is the encoding of a followed by r |
| Header.DecodeInvertsEncode | pkg/protocol/header.go:71-125 | decoding yields h and rest r if and only if h has version 1 and the stream is the encoding of h followed by r |
| Header.EncodingsArePrefixFree | pkg/protocol/header.go:71-89 | equal streams starting with two encodings have equal headers and equal rests |
| Tunnel.TokenValid | pkg/tunnel/server.go:115-122 | true exactly when the token is that of some accepted UUID on this channel |
| Tunnel.Relay | pkg/tunnel/server.go:106-110 | the payload goes up and the answer back, each in order and as far as its link takes it |
| Tunnel.Handle | pkg/tunnel/server.go:54-111 | the outcome and every byte sent upstream and back, as a function of the client stream, whether the header came in time, and what the links take |
| Tunnel.OutcomeExactly | pkg/tunnel/server.go:54-111 | every outcome as an if-and-only-if on the stream: no header, a token no accepted UUID gives, and by command 1, 3 or another, only behind an accepted token |
| Tunnel.SentExactly | pkg/tunnel/server.go:80-111 | nothing is sent upstream or back without an accepted token; a ping is answered with the four bytes of PONG, a relayed stream with the destination's answer, and everything else with nothing |
| Tunnel.DialTunnel | pkg/tunnel/client.go:46-63 | writes exactly the encoding of the connect header, or nothing and the encoding error, or the front of it and a write error |
| Tunnel.ClientHeaderOnTheWire | pkg/tunnel/client.go:46-57 | the client's header byte by byte: version 1, the first 16 bytes of the MAC of the channel under its UUID, command 1, the destination |
| Tunnel.LayersConsumeExactly | pkg/tunnel/server.go:64-111 | frame, header, payload on one stream: the frame reader leaves header and payload, and the server sends upstream exactly the payload |
| Tunnel.ClientSends | pkg/tunnel/client.go:46-63 | after the handshake the client's header and payload writes make exactly that byte stream, however the payload is cut |
| Tunnel.Handshakes | pkg/auth/noise.go:81-140 | both handshakes over one connection, in order: each side ends with the other's message and nothing is left over |
| Tunnel.Session | pkg/tunnel/e2e_test.go:78-135 | handshakes, header, payload and answer over one connection: the server relays the client's header under the hash each end computes for itself, the destination receives exactly the payload, and the client ends its handshake with the server's message and has exactly the destination's answer left to read |
| Tunnel.RelayedStreamsWereAuthenticated | pkg/tunnel/server.go:80-111 | a stream is relayed if and only if it opens with a version 1 connect header carrying an accepted token, and exactly the rest goes upstream |
| Sni.WalkExtensions | pkg/transport/tcp/sni.go:92-122 | the index loop ends, stays in bounds, and computes the recursive walk |
| Sni.TurnWalks | pkg/transport/tcp/sni.go:92-122 | one turn of the index loop is one step of the walk over what is left |
| Sni.ReadHello | pkg/transport/tcp/sni.go:53-90 | the cursor stays in bounds and computes the ClientHello parse, error by error |
| Sni.PeekClientHelloSNI | pkg/transport/tcp/sni.go:17-123 | name, raw bytes, error and remaining stream, for every stream and every way it is cut |
| Sni.PeekErrorExactly | pkg/transport/tcp/sni.go:17-34 | which streams fail in the record layer, and with which error |
| Sni.HandshakeErrorExactly | pkg/transport/tcp/sni.go:36-50 | which record bodies the handshake header refuses |
| SniGrammar.ServerNameExactly | pkg/transport/tcp/sni.go:99-119 | the extension body gives a name if and only if it is a serialised list of at least 5 bytes opening with a host_name entry |
| SniGrammar.ParserIsTheGrammar | pkg/transport/tcp/sni.go:36-122 | on every byte string the parser gives a name, or no name, if and only if the grammar derives the string with that meaning |
| SniGrammar.MalformedExactly | pkg/transport/tcp/sni.go:36-98 | the parser reports an error if and only if the grammar derives the string in no way |
| SniGrammar.SerialisedHelloIsFound | pkg/transport/tcp/sni.go:26-122 | any serialised ClientHello in a record of 4 to 16384 bytes yields its name, the record for replay, and leaves what follows |
| SniGrammar.PeekIsTheGrammar | pkg/transport/tcp/sni.go:17-123 | on every stream the peek succeeds with a name, raw bytes and a remainder if and only if the stream is those bytes and that remainder and the bytes are one record of the grammar with that name |
| SniGrammar.PlainRecordIsFound | pkg/transport/tcp/sni.go:17-123 | the plainest ClientHello for any name of 2 to 200 bytes, written out byte by byte, is found under that name |
| SniGrammar.OneByteNameIsMissed | pkg/transport/tcp/sni.go:111-113 | a list holding one one-byte name reads as no name |
| PeekConn.PeekConn.Read | pkg/transport/tcp/server.go:212-219 | for any buffer size, the next bytes of replay followed by connection, none lost |
| PeekConn.HandleConn | pkg/transport/tcp/server.go:101-118 | the route, and the stream the next reader is going to see |
| PeekConn.RouteExactly | pkg/transport/tcp/server.go:101-118 | the route of every stream: dropped under 5 bytes; to the TLS server if and only if no names are configured, or it opens with a record of the grammar whose name is magic, or with none while the empty name is magic; otherwise to the decoy |
| PeekConn.CopyToDecoy | pkg/transport/tcp/server.go:167 | the copy towards the decoy on its own, nothing closing its connections: the decoy is given the stream, in order, as far as its link goes |
| PeekConn.ReadInSizes | pkg/transport/tcp/server.go:212-219 | any sequence of buffer sizes sees a prefix of that stream and leaves the rest; once a read reports an error, it has seen the whole stream |
| PeekConn.ReplayIsTheStream | pkg/transport/tcp/server.go:107-112 | a connection is dropped exactly when under 5 bytes came; otherwise replay gives the inbound bytes padded with a zero per missing body byte, so the inbound stream exactly when none is missing |
| PeekConn.ClientHelloIsRoutedByName | pkg/transport/tcp/server.go:114-118 | a serialised ClientHello is routed by its name alone, and its receiver can read every byte of it |
| Decoy.StepKeepsInv | pkg/transport/tcp/server.go:151-170 | every step of any interleaving of the two copies and the exit, reads of the replay after the close among them, keeps both streams whole, and before the exit a copy ends only when drained or on a failed write |
| Decoy.EachSideGetsAPrefix | pkg/transport/tcp/server.go:151-170 | in every reachable state and both directions, written, then in hand, then unread is the stream; so each side has a prefix, and nothing at all if the decoy was not dialled |
| Decoy.DecoyGetsAllExactly | pkg/transport/tcp/server.go:164-169 | whatever happens after the exit, the decoy has the whole stream exactly when the copy towards it was drained at the exit; otherwise the other copy ended first or a write failed |
| Decoy.CopiesEndOnceClosed | pkg/transport/tcp/server.go:162-219 | once both connections are closed a copy still running writes nothing and can move: it ends, or takes replayed bytes in hand, after which it can only end |
| Decoy.EitherSideCanFinishFirst | pkg/transport/tcp/server.go:167-169 | for every stream, answer and prefix: a run with no failing write in which the decoy is given that prefix and the client the whole answer, and one the other way about |
| Decoy.LeftForCause | pkg/transport/tcp/server.go:164-169 | while no write fails the forwarder leaves only when one direction has been passed on whole |
| Decoy.OutcomesExactly | pkg/transport/tcp/server.go:164-170 | what decoy and client can have been given when all is over is exactly any two prefixes; while no write fails, exactly those of which one is the whole |
| Decoy.SureOfAllExactly | pkg/transport/tcp/server.go:164-170 | every run gives a dialled decoy the whole stream if and only if the stream is empty |
| Decoy.DecoySeesTheConnection | pkg/transport/tcp/server.go:101-118 | a ClientHello with another name goes to the decoy, which is only ever given a prefix of the bytes on the wire |
| FanIn.StepKeepsInv | pkg/tunnel/server.go:152-165 | every step keeps conservation, order, error-last and capacity for every listener |
| FanIn.Conservation | pkg/tunnel/server.go:144-189 | in every reachable state, accepted = delivered, then in the channel, then in hand, then given up; nothing is given up before Close and one item at most after; at most 4n items wait |
| FanIn.NothingFollowsAnError | pkg/tunnel/server.go:160-162 | an error is the last item a listener contributes or the consumer sees from it |
| FanIn.DrainedMeansDelivered | pkg/tunnel/server.go:169-178 | a drained open composite has delivered exactly what each idle listener returned |
| FanIn.HoldersCanMove | pkg/tunnel/server.go:155-159 | a worker holding an item can send it now, or after one receive |
| FanIn.ChannelFills | pkg/tunnel/server.go:144-159 | one worker alone can make four items a listener wait, accepting again after each send |
| FanIn.WorkersGoOnOrLeave | pkg/tunnel/server.go:152-165 | after Close a worker may give up what it holds and end; it can send exactly while fewer than 4n items wait, and then accepts again unless it sent an error |
| FanIn.OrderIsFixedAtSend | pkg/tunnel/server.go:155-178 | along every run, delivered items followed by the channel only grow at the end |
| Smux.Client.Dial | pkg/transport/smuxtcp/smuxtcp.go:199-220 | the result, the number of outer dials and the whole cached state, in every case of failure |
| Smux.DialExactly | pkg/transport/smuxtcp/smuxtcp.go:199-220 | every Dial, by what it finds and is answered: when it succeeds and with which stream, which error otherwise, exactly how many outer dials, and the session then cached |
| Smux.Client.DialOuter | pkg/transport/smuxtcp/smuxtcp.go:222-253 | adopts session, socket and hash together, or changes nothing |
| Smux.RunsStayCoherent | pkg/transport/smuxtcp/smuxtcp.go:199-266 | over every run, the cached socket and hash are those of the cached session |
| Smux.StreamsMatchTheirSession | pkg/transport/smuxtcp/smuxtcp.go:199-220 | every stream returned carries the socket and hash of the session that opened it, which was cached and open or has just been dialled; two outer dials at most |
| SmuxServer.AcceptStreams | pkg/transport/smuxtcp/smuxtcp.go:129-148 | one goroutine on its own: the streams of the ids its session yields, in order, each with the session's socket and hash, until the server is closed |
| SmuxServer.StepKeepsInv | pkg/transport/smuxtcp/smuxtcp.go:129-148 | every step of any interleaving of sessions keeps conservation, order, socket, hash and capacity for each of them |
| SmuxServer.EachSessionInOrder | pkg/transport/smuxtcp/smuxtcp.go:129-162 | in every reachable state the streams handed out for a session are the ids it accepted, in order, with its own socket and hash, short of one at most, in hand or given up after Close |
| SmuxServer.HoldersCanMove | pkg/transport/smuxtcp/smuxtcp.go:141-146 | a goroutine holding a stream can send it now, or after one is taken out |
| SmuxServer.ChannelFills | pkg/transport/smuxtcp/smuxtcp.go:129-148 | one goroutine alone can make 64 streams wait, accepting again after each send |
| SmuxServer.GoroutinesGoOnOrLeave | pkg/transport/smuxtcp/smuxtcp.go:141-146 | after Close a goroutine may give up its stream and end; it can send exactly while fewer than 64 wait, and then accepts again |
| SmuxServer.SessionsAreApart | pkg/transport/smuxtcp/smuxtcp.go:129-135 | what one session does, its end included, leaves the others and the server as they are |
| SmuxServer.TokensVerifyAcrossReconnects | pkg/tunnel/server.go:115-122 | a stream the client gets after any run of dials, accepted by the other end of its session as the j-th, is handed out there as the j-th in any interleaving, and the client's token for an accepted UUID verifies on it |
| Normalize.OutputIsClean | pkg/blocklist/rkn.go:161-177 | the output holds no upper-case letter and none of "/?#:" |
| Normalize.CaseIsIgnored | pkg/blocklist/rkn.go:162 | texts that differ in ASCII case only have one normal form |
| Normalize.TwiceTrimsOneMoreDot | pkg/blocklist/rkn.go:161-177 | normalising twice takes off one more trailing dot and does nothing else |
| Normalize.NormalForm | pkg/blocklist/rkn.go:161-177 | on every input the five steps are one cut: of what follows the first "://" in lower case, the part in front of the first of "/?#:", or all of it less one dot |
| Normalize.IdempotentExactly | pkg/blocklist/rkn.go:161-177 | idempotent exactly on the inputs where the host in front of the first stop does not end in a dot, or, without a stop, the text not in two |
| Normalize.NotIdempotent | pkg/blocklist/rkn.go:161-177 | "x://f./" gives "f." and that gives "f" |
| Normalize.DottedHostNeedsTwoPasses | pkg/blocklist/rkn.go:161-177 | so does every URL with a dot between its host and its port, path, query or fragment |
| Normalize.NormalisesToHostExactly | pkg/blocklist/rkn.go:161-177 | for every input and host: it normalises to the host if and only if what follows its first "://" is the host, alone or with a dot, port, path, query or fragment |
| Normalize.HostIsBehindTheFirstMark | pkg/blocklist/rkn.go:165-167 | the same for any text in front of the first "://", colons and slashes included |
| Normalize.UrlIsItsHost | pkg/blocklist/rkn.go:161-177 | any case variant of scheme://host with a dot, port, path, query or fragment normalises to the host |
| Normalize.BareHostExactly | pkg/blocklist/rkn.go:161-177 | a decorated host without a scheme normalises to itself if and only if no "://" follows or the same host stands behind the first one |
| Normalize.BareHostCanBeLost | pkg/blocklist/rkn.go:165-167 | "a/b://c" gives "c" |
| Normalize.CommentExactly | pkg/blocklist/rkn.go:161-177 | a text beginning with '#' has a non-empty normal form exactly when it holds "://" and what follows the first is more than a dot and opens with no stop |
| Blocklist.TrimSpaceCutsBothEnds | pkg/blocklist/rkn.go:98 | trimming a line takes off all the white space at both ends, ASCII or other, as encoded in UTF-8, and nothing else |
| Blocklist.LinesPartition | pkg/blocklist/rkn.go:97 | the lines joined by newlines are the text, and no line holds a newline |
| Blocklist.KeepsExactlyNonEmptyEntries | pkg/blocklist/rkn.go:98-101 | a line passes the test of the loop exactly when its normal form is not empty |
| Blocklist.CommentIsLoadedExactly | pkg/blocklist/rkn.go:98-101 | which lines beginning with '#' are loaded all the same, by what follows their first "://" |
| Blocklist.EntriesAreNormalForms | pkg/blocklist/rkn.go:97-102 | every line with a non-empty normal form is among the entries added |
| Blocklist.LoadedExactly | pkg/blocklist/rkn.go:97-102 | what is added are exactly the non-empty normal forms of the trimmed lines |
| Blocklist.EntriesAreCounted | pkg/blocklist/rkn.go:97-102 | a load counts the lines with a normal form, each as often as it comes |
| Blocklist.BitsComeFromEntries | pkg/blocklist/rkn.go:144-159 | after adding entries a bit is set exactly when it was before or one of them hashes to it |
| Blocklist.Set.Add | pkg/blocklist/rkn.go:144-152 | adds exactly the positions of the entry, and counts it |
| Blocklist.Set.Contains | pkg/blocklist/rkn.go:114-128 | true exactly when the normal form is not empty and all its positions are set; an empty one needs no bits |
| Blocklist.Set.LoadDomains | pkg/blocklist/rkn.go:82-107 | for every way the input is cut, with the last bytes alone or together with the error, the bits and the count after loading all its lines; a read error leaves the set as it was; a text without entries needs no bits |
| Blocklist.NeverForgets | pkg/blocklist/rkn.go:82-128 | a host with the normal form of any line of any text loaded so far is blocked, whatever was loaded since |
| Blocklist.BlockedExactly | pkg/blocklist/rkn.go:114-159 | after any loads a host is blocked if and only if it has a normal form and every bit it hashes to, by FNV-1a of the hash number and the normal form, is one that something loaded hashes to |
| Blocklist.OneMissIsEnough | pkg/blocklist/rkn.go:119-125 | a host one of whose hashes is none of anything loaded is not blocked |
| Blocklist.UrlsOfLoadedHostsAreBlocked | pkg/blocklist/rkn.go:109-128 | once any line is loaded that is a host or a URL on it, every URL on that host and every bare form of it is blocked, in any case, under any scheme, with any port or path |
| Decimal.Itoa | pkg/autoprobe/probe.go:116-129 | never underruns its 10-byte buffer below 10^10, and returns the canonical digits of the number |
| Decimal.CanonicalIsUnique | pkg/autoprobe/probe.go:116-129 | a number has one canonical digit string |
| Decimal.DigitCountExactly | pkg/autoprobe/probe.go:120-128 | a canonical text has more than n digits exactly when its number is 10^n or more |
| Decimal.OverlongExactly | pkg/autoprobe/probe.go:120-128 | so the texts that overrun the 10-byte buffer are those of the numbers from 10^10 on |
| Decimal.ParsePort | pkg/tunnel/client.go:83-92 | the value of the digits modulo 2^16, or an error on any other byte |
| Decimal.PortErrorExactly | pkg/tunnel/client.go:83-92 | an error if and only if some byte is outside 48 to 57 |
| Decimal.PortTextRoundTrip | pkg/tunnel/client.go:83-92 | parsing gives a port back from its canonical text and from no other 16-bit canonical text, and digits parse to their number exactly when it fits |
| Decimal.OutOfRangePortsWrap | pkg/tunnel/client.go:83-92 | 65616 is read as port 80 |

## Left out

- Replay.Filter.Check: not called on a filter of zero bits with a timestamp that passes the skew test and hashes to probe, because there the source's first probe divides by zero. Otherwise the class is one call at a time; interleaving is in `ReplaySteps`, over the same functions on the abstract filter.
- ReplaySteps.RunNeverDoublyAccepts: one integer clock that never goes back stands for two. The skew test subtracts a timestamp without a monotonic reading, so it goes by the wall clock; the rotation test goes by the monotonic one. A wall clock set back lengthens the time in which a timestamp passes, and the results do not cover that.
- ReplayBound.SafeExactly: assumes timestamps less than 2^63 ns ahead of the clock; without that the answer is `UnboundedTimestampsAreNeverSafe`.
- Decimal.Itoa: takes numbers below 10^10, because from there on the digits do not fit the source's buffer (`OverlongExactly`) and it stops.
- Pipe.Pipe.Read: a read that would block is not a step; an exhausted queue stands for a peer that has closed or a deadline that has passed.
- Pipe.Pipe.Write: a link that breaks does so after a number of bytes fixed from the start, and takes what it can of the write that exceeds it.
- Tunnel.Handle: the 10 s header deadline is one answer, in time or not; the interleaving of the two copy directions, which share no state and are both waited for.
- Tunnel.Session: on links that do not break; what each step does on one that breaks is in the contracts of the steps.
- PeekConn.CopyToDecoy: the exit that may cut it short is in `Decoy`.
- Decoy.EachSideGetsAPrefix: the deadline of the dial is one answer, dialled or not; a reset that drops bytes already received counts as bytes never sent.
- SmuxServer.TokensVerifyAcrossReconnects: that both ends of one handshake hold one hash, and that an id names one stream of a session, is taken from the Noise and smux engines.
- Normalize.NormalForm: on ASCII; the source also folds other letters.
- Blocklist.Set.Contains: not called on a set of zero bits with a host to look up and hashes to probe, because there the source divides by zero; nor Blocklist.Set.LoadDomains on such a set with an entry to add.
- Blocklist.Set.LoadDomains: readers holding the lock meanwhile, and the time of the last load.
- Noise, X25519, HMAC, SHA-256 and FNV internals; TLS, uTLS, QUIC, smux and WebSocket engines; dialling, deadlines, contexts and logging.
- `LoadXML`: it depends on the XML tokeniser; what it inserts goes through the same `normalize` and `add`.
- URI and configuration parsing, region profiles, SOCKS plumbing, commands and certificates: library calls, tables and I/O.
- `encodeDest` and the textual destination: they depend on IP parsing and printing; address type and bytes are taken as given.
- False-positive rates of either bloom filter: a matter of probability.
