# QRadioLink: codec, tone receiver, control messages, calls and gain control

QRadioLink connects radio stations to each other through a Mumble server. This project models the
parts of it in which bytes, samples and messages turn into decisions, and proves what those parts
are for.

| files | what they model |
|---|---|
| `Options`, `Bytes`, `BigEndianBytes`, `MumbleVarint` | optional values; fixed-width integers; the variable-length integer code of Mumble voice packets, as functions on byte strings |
| `PacketSink`, `PacketStream` | what a run of writes amounts to; the class `PacketDataStream` that works in place on a buffer |
| `VoicePacket`, `Framing` | voice frames from sender through server to receiver; the preamble of control messages |
| `Goertzel`, `ToneDecoder`, `DtmfDecoder` | the tone filter over exact reals, the choice of a key for a block, the vote over blocks and the assembly of keys |
| `ProtoWire`, `ProtoMessage`, `PresenceBits` | Protocol Buffers wire primitives; messages, parsing, serialising and merging for any list of fields; presence words |
| `Parameters`, `JoinConference`, `LeaveConference` | the three generated message classes, with the gotos of their parsers |
| `PeerQuery` | the parameter query between two stations |
| `Receiver` | the receiver's loop from blocks of samples to calls and commands |
| `Roster`, `RosterLaws`, `RosterRuns` | the vector of online stations and the calls on it as a state machine; what each step does and what every run keeps |
| `RosterEffects` | what each message, call and keypad command changes and sends, field by field |
| `CallOwnership`, `ServerGuarantee` | who may be sent home: the exact condition, and what the server must guarantee for it |
| `MumbleClient` | the client, its station objects and the keypad driver, updated in place and tied to `Roster` |
| `Dialling` | from the keys heard to the message sent |
| `Agc` | the fixed-point automatic gain control, in place on a buffer |

Code that the source writes as objects is a class here whose methods are proved against functions
on values; the theorems are lemmas about those functions. Shifts and masks are written as division
and remainder. Where the source leaves the order of evaluation of several `next()` calls in one
expression open, the order from left to right is modelled.

Some things the source's authors may expect turn out false, and are stated exactly:

- `undersize() == 0` does not mean that the packet is valid: the counter has 32 bits and wraps. The
  two agree exactly when the number of missing bytes is no positive multiple of 2^32
  (`ValidIffNothingMissing`, with the counterexample `ShortfallCanVanish`), and a retry with a
  buffer enlarged by `undersize()` succeeds exactly when fewer than 2^32 bytes were missing.
- A voice packet that does not fit the 1024-byte frame is sent with zeros in place of the audio;
  it reaches the peer's decoder intact if and only if it fits (`VoiceReachesThePeer`).
- The loops that remove a session from the vector while indexing forward delete exactly that
  session's entries if and only if no two of them are neighbours (`RemovalIsExact`); sessions stay
  distinct over every run (`RunKeepsDistinct`), so they do.
- It is not so that only stations we called are sent home. A call keeps it so if and only if each
  station it marks is ourselves, already held, or the last of that radio id with a nonzero session
  (`CallKeepsMarks`, `CallThenReleaseAll`, and over runs `RunExact`). A server that gives every
  station a nonzero session and a radio id of its own makes every call safe (`ServedIsSafe`); three
  runs from an empty roster show what happens without that.
- The overflow branch and the silence branch of the gain control cannot be reached: the gain never
  exceeds unity. Nothing is ever made louder.
- The key `Q`, which would place a direct call, is no symbol the receiver can recognise
  (`KeysAreSymbols`).

## Model

| member | source | states |
|---|---|---|
| MumbleVarint.RoundTrip | ext/PacketDataStream.h:181-269 | for every 64-bit value and every bytes after it, reading back what was written yields the value, moves the cursor by exactly the bytes written and keeps the flag |
| MumbleVarint.ReadsOnlyWhatItConsumes | ext/PacketDataStream.h:235-269 | a successful read gives the same value, length and flag whatever follows the bytes it consumed |
| MumbleVarint.PrefixFree | ext/PacketDataStream.h:100-107 | cut anywhere short of what a read consumes, chains of complements included, the read fails |
| MumbleVarint.CutEncodingFails | ext/PacketDataStream.h:181-233 | every proper prefix of an encoding ends a read with the flag cleared |
| MumbleVarint.EncodingTable | ext/PacketDataStream.h:181-233 | the bytes written for every value, range by range: markers, shifts, and the two forms for complements |
| MumbleVarint.ReadingForm | ext/PacketDataStream.h:235-269 | the value read for each marker and its following bytes, missing ones as 0, with the bytes consumed and the flag |
| MumbleVarint.ReadingComplement | ext/PacketDataStream.h:248-256 | 0xF8 complements what follows; 0xFC to 0xFF stand for -1 to -4 |
| MumbleVarint.EncodingIsShortest | ext/PacketDataStream.h:181-269 | no byte string that a read consumes whole, with any number of complement markers, is shorter than the encoding of its value; one of equal length is that encoding up to the two marker bits the reader ignores |
| MumbleVarint.ComplementLength | ext/PacketDataStream.h:184-194 | the code of a value costs at most one byte more than that of its complement, and is the marked form when it costs exactly one more |
| MumbleVarint.MultiIsShortest | ext/PacketDataStream.h:195-231 | each of the six positive forms, filled with any bytes, is no shorter than the encoding of its value |
| BigEndianBytes.JoinSplit | ext/PacketDataStream.h:198-231 | joining the bytes and the top bits a value was split into gives the value |
| BigEndianBytes.SplitJoin | ext/PacketDataStream.h:238-267 | splitting what was joined gives the bytes and the top bits |
| PacketSink.NarrowWiden | ext/PacketDataStream.h:318-335 | every value of the six converted integer types, negative ones included, survives the trip through quint64 |
| PacketSink.CastTable | ext/PacketDataStream.h:318-335 | each cast from quint64 gives the number congruent modulo the type's width and in its range |
| PacketSink.BlockRoundTrip | ext/PacketDataStream.h:271-287 | a byte array reads back equal and leaves exactly what follows |
| PacketSink.ListRoundTrip | ext/PacketDataStream.h:384-412 | a list of integers of any of the types reads back equal with the flag kept: the length test never clips it, since every element takes a byte |
| PacketSink.IntsTakeSpace | ext/PacketDataStream.h:400-403 | the elements of a list take at least as many bytes as there are elements |
| PacketSink.RunStandsForIdeal | ext/PacketDataStream.h:68-91 | after any run of writes from a fresh stream the flag holds exactly when everything fitted, a valid buffer is the ideal serialisation, an invalid one is full, and the counter is the shortfall modulo 2^32 |
| PacketSink.IdealTable | ext/PacketDataStream.h:271-275 | integers, blocks, byte arrays and lists byte by byte: lengths first, elements in order |
| PacketSink.ListAfterLength | ext/PacketDataStream.h:392-412 | a list longer than what is left is read as far as that goes, with the flag cleared |
| PacketStream.BlockAfterLength | ext/PacketDataStream.h:277-287 | a byte array longer than what is left is what is left, with the flag cleared |
| PacketSink.ValidIffNothingMissing | ext/PacketDataStream.h:56-66 | isValid() and undersize() == 0 agree exactly when the shortfall is no positive multiple of 2^32 |
| PacketSink.RetrySucceeds | ext/PacketDataStream.h:48-91 | rerunning the same writes with capacity enlarged by undersize() is valid exactly when fewer than 2^32 bytes were missing, exactly when size() + undersize() was the ideal length, and exactly when the new buffer is the ideal serialisation |
| PacketSink.ShortfallCanVanish | ext/PacketDataStream.h:68-76 | there is a run of writes that ends invalid with undersize() 0 |
| PacketStream.PacketDataStream.constructor | ext/PacketDataStream.h:152-158 | a fresh stream has written nothing, misses nothing and has the whole buffer before it |
| PacketStream.PacketDataStream.Append | ext/PacketDataStream.h:68-76 | one byte more in the buffer, or one more counted missing modulo 2^32 and the flag cleared; nothing past the cursor changes |
| PacketStream.PacketDataStream.AppendBlock | ext/PacketDataStream.h:78-91 | the whole block, or zeros to the end of the buffer and the rest counted; nothing past the cursor changes |
| PacketStream.PacketDataStream.Skip | ext/PacketDataStream.h:93-98 | moves past the bytes if they are there, else clears the flag and stays |
| PacketStream.PacketDataStream.Next | ext/PacketDataStream.h:100-107 | the next unread byte, or 0 with the flag cleared |
| PacketStream.PacketDataStream.Rewind | ext/PacketDataStream.h:118-120 | everything up to the limit is unread again |
| PacketStream.PacketDataStream.Truncate | ext/PacketDataStream.h:122-124 | the limit becomes the cursor: nothing is left |
| PacketStream.PacketDataStream.DataBlock | ext/PacketDataStream.h:140-149 | exactly the next bytes, or nothing with the flag cleared and the cursor unmoved |
| PacketStream.PacketDataStream.WriteVarint | ext/PacketDataStream.h:181-233 | the branches, shifts and masks of operator<< write the encoding, byte by byte with the overrun accounting |
| PacketStream.PacketDataStream.ReadVarint | ext/PacketDataStream.h:235-269 | the recursive operator>> reads what the decoding function says of the unread bytes, moves the cursor inside the buffer, and terminates with the bytes left as measure |
| PacketStream.PacketDataStream.WriteInt | ext/PacketDataStream.h:318-335 | writes the encoding of the sign-extended value |
| PacketStream.PacketDataStream.ReadInt | ext/PacketDataStream.h:318-335 | reads a varint and keeps its low bits, signed where the type is |
| PacketStream.PacketDataStream.WriteByteArray | ext/PacketDataStream.h:271-275 | length, then the block |
| PacketStream.PacketDataStream.ReadByteArray | ext/PacketDataStream.h:277-287 | the block, clipped to what is left with the flag cleared |
| PacketStream.PacketDataStream.WriteList | ext/PacketDataStream.h:384-390 | length, then every element |
| PacketStream.PacketDataStream.ReadList | ext/PacketDataStream.h:392-412 | the elements the decoding function delivers, clipped and stopped early as it says |
| VoicePacket.VoiceClient.CreateVoicePacket | mumbleclient.cpp:564-599 | header byte, sequence number, size and audio in the 1024-byte frame; the sequence number advances by the frame count modulo 2^64 |
| VoicePacket.VoiceClient.ProcessIncomingAudioPacket | mumbleclient.cpp:601-623 | what reaches the audio decoder: nothing, or the codec number and all bytes after the three varints |
| VoicePacket.VoiceClient.ProcessUDPData | mumbleclient.cpp:625-644 | nothing before encryption is set or for a ping reply; else the frame's delivery |
| VoicePacket.VoiceReachesThePeer | mumbleclient.cpp:564-644 | for every session, sequence number, codec and nonempty audio, the receiver's decoder is given the sender's codec number and exactly the audio if and only if the packet fits the frame |
| VoicePacket.FrameBody | mumbleclient.cpp:572-588 | a frame's body is the encoded number and size followed by the audio, or by zeros to the end when it does not fit |
| VoicePacket.HeaderIs | mumbleclient.cpp:566-574 | the header byte is 160 or 128: the codec's number on top, the low five bits clear |
| VoicePacket.FitsIs | mumbleclient.cpp:572-575 | a packet fits when number, size and audio take at most 1023 bytes |
| VoicePacket.CarriedIs | ext/PacketDataStream.h:82-90 | audio that does not fit is replaced by zeros to the end of the frame |
| VoicePacket.SilentDatagrams | mumbleclient.cpp:625-644 | no datagram is delivered before encryption is set up, none that starts with 32 is, and every other is taken apart behind its first byte |
| Framing.PreambleTable | ext/utils.cpp:34-43 | the six bytes by position: type and length, most significant byte first |
| Framing.AddPreamble | ext/utils.cpp:34-43 | writes those six bytes and nothing else |
| Framing.GetPreamble | ext/utils.cpp:45-54 | yields the type and length whose preamble the first six bytes are, the length read as signed |
| Framing.PreambleInjective | ext/utils.cpp:34-54 | equal preambles have equal type and length |
| Framing.SendThenReceive | mumbleclient.cpp:133-144 | a control message arrives with the type and the body it was sent with |
| Framing.SendMessage | mumbleclient.cpp:667-679 | the bytes sent are the preamble and the message |
| Goertzel.Goertzel.Calc | ext/Goertzel.h:280-285 | one step of the recurrence |
| Goertzel.Goertzel.Reset | ext/Goertzel.h:271-274 | back to the state before any sample |
| Goertzel.ResultIsBin | ext/Goertzel.h:280-302 | after any block, result() is the bin of the discrete Fourier transform turned by one unit rotation per sample, for every c and s with c*c + s*s == 1 |
| Goertzel.BinNext | ext/Goertzel.h:280-302 | what the transform is: each sample more adds itself turned back as many times as there were samples before it |
| Goertzel.PowerNext | ext/Goertzel.h:280-302 | what turning is: complex multiplication by c and s, starting from one |
| Goertzel.MagnitudeIsBinPower | ext/Goertzel.h:354-357 | magnitudeSquared() after any block is the squared modulus of that bin |
| Goertzel.PowerIsNorm | ext/Goertzel.h:339-357 | the short form of magnitudeSquared() is the squared modulus of result() |
| Goertzel.PowerBounded | ext/Goertzel.h:354-357 | with samples in [-1, 1] it lies between 0 and the square of their number |
| Goertzel.StepRotates | ext/Goertzel.h:280-302 | one sample more: result() gains the sample and turns once |
| ToneDecoder.ToneDecoder.Filter | dtmfdecoder.cpp:186-193 | the loop keeps every sample in [-1, 1], zeroes every other, in place, and measures the squared modulus of the resulting block's bin |
| ToneDecoder.ToneDecoder.NewDecode | dtmfdecoder.cpp:177-313 | every sample in [-1, 1] is kept and every other zeroed; the letter is the key of the strongest row tone and the strongest column tone |
| ToneDecoder.InRangeIsMeasured | dtmfdecoder.cpp:186-193 | a block within range is not changed, and its powers are those of the transform's bins of the block itself |
| ToneDecoder.KeyTable | dtmfdecoder.cpp:230-311 | the sixteen pairs of tones and their keys; every other pair is the blank |
| ToneDecoder.ChosenTone | dtmfdecoder.cpp:184-228 | the tone chosen is the last among the loudest that reach the threshold, and none is chosen only when none reaches it |
| ToneDecoder.StrongestIsLastLoudest | dtmfdecoder.cpp:184-228 | it is the only one that is |
| ToneDecoder.PowersBounded | dtmfdecoder.cpp:186-193 | whatever the input, the clamped block's powers lie between 0 and the square of its length |
| DtmfDecoder.DtmfDecoder.Step | dtmfdecoder.cpp:100-167 | one turn of the loop keeps the machine where the batch computation over the whole history of blocks would put it: window, letter, pending keys and every call and command emitted |
| DtmfDecoder.DtmfDecoder.Analyse | dtmfdecoder.cpp:494-646 | the vote sets the letter that holds a strict majority of the window, and keeps the old one where there is none or fewer than 25 blocks |
| DtmfDecoder.DtmfDecoder.Tally | dtmfdecoder.cpp:494-542 | the counting loop finds the multiplicity in the window of each of the 17 symbols |
| DtmfDecoder.RecognisedIs | dtmfdecoder.cpp:494-646 | the letter recognised after any history: the one of the 17 that fills more than half of the last 26 blocks (of all 25 when there are no more), else the one before, at first the blank |
| DtmfDecoder.DtmfDecoder.Accept | dtmfdecoder.cpp:117-167 | the edge detector adds the letter to the keys when it is no blank and differs from the one before, and else adds nothing |
| DtmfDecoder.DtmfDecoder.Assemble | dtmfdecoder.cpp:126-160 | an accepted key clears, extends or completes the pending keys as the batch computation does |
| DtmfDecoder.OneMajority | dtmfdecoder.cpp:543-645 | at most one letter passes the majority tests, so their order is irrelevant |
| DtmfDecoder.KeysAreAccepted | dtmfdecoder.cpp:117-124 | dropping blanks from the collapsed letters gives exactly the letters at the blocks where the edge detector accepts a key |
| DtmfDecoder.AssembleNext | dtmfdecoder.cpp:126-160 | what one key more adds to the batch result |
| DtmfDecoder.KeyPressed | dtmfdecoder.cpp:126-160 | one key more: a star clears, C and Q complete a call, D completes a command, anything else is kept |
| DtmfDecoder.KeysNext | dtmfdecoder.cpp:117-122 | one block more: its letter is a key exactly if it is new and no blank |
| DtmfDecoder.ChangeNeedsMajority | dtmfdecoder.cpp:543-645 | the letter changes only to one counted in at least 13 of 25 or 14 of 26 blocks, so fewer than 13 of the last 26 blocks never make a key |
| DtmfDecoder.NoTwoChangesInARow | dtmfdecoder.cpp:108-114 | the recognised letter changes at most every second block |
| DtmfDecoder.SameKeyTakesFourBlocks | dtmfdecoder.cpp:117-122 | the same key is accepted again no sooner than four blocks later |
| DtmfDecoder.EventsWellFormed | dtmfdecoder.cpp:126-155 | every emitted call or command holds its terminator last and nowhere else, and no star |
| Receiver.Receiver.Turn | dtmfdecoder.cpp:89-167 | one turn of the loop over a block of samples adds the block's letter to the history, clamps the block in place and keeps the machine where the batch computation puts it |
| Receiver.Receiver.Run | dtmfdecoder.cpp:82-169 | over any recording, the calls and commands emitted are those of the batch computation over the letters of the clamped blocks |
| Receiver.LetterNamesTones | dtmfdecoder.cpp:177-313 | a block is named after a key if and only if that key's row tone and column tone are each the last loudest of their group and reach the threshold |
| Receiver.KeyNeedsTones | dtmfdecoder.cpp:108-167 | over any recording, a key is accepted only if its two tones stand out in more than half of the last 25 or 26 blocks |
| Receiver.TonesGiveKey | dtmfdecoder.cpp:494-646 | and it takes no more: a key whose two tones stand out in more than half of the last 25 or 26 blocks is the letter recognised |
| Receiver.KeysAreLetters | dtmfdecoder.cpp:230-311 | every key of the pad is a letter the vote can recognise |
| Dialling.NumberIsTheKeysPressed | dtmfcommand.cpp:42-50 | for every history of blocks, the number of an emitted call or command is the keys pressed since the last star or terminator, with nothing but the terminator lost to stripping |
| Dialling.KeysAreSymbols | dtmfdecoder.cpp:543-645 | every key is one of the 17 symbols, so the direct-call key is never recognised |
| Dialling.DialledNumberIsCalled | dtmfcommand.cpp:38-94 | a number dialled outside a conference asks for a channel; whatever messages and commands come before that channel is announced, the announcement calls the number from it: exactly which message is sent (pull, join or give up, by the station's presence and conference) and where driver, roster and channel end |
| Dialling.DialledInConference | dtmfcommand.cpp:59-62 | a number dialled inside a conference is called at once from the channel we are in, with the same exact outcome |
| Dialling.ReadyAnswers | dtmfcommand.cpp:67-94 | with distinct radio ids and no session 0, what an announcement does with the number dialled before it |
| ProtoWire.VarintRoundTrip | ext/QRadioLink.pb.cc:363-392 | a written varint reads back with exactly what follows left |
| ProtoWire.VarintByte | ext/QRadioLink.pb.cc:363-392 | byte k of a written varint is v / 128^k mod 128, plus 128 exactly where another byte follows |
| ProtoWire.VarintLength | ext/QRadioLink.pb.cc:363-392 | it has as many bytes as the value has groups of seven bits, at least one |
| ProtoWire.VarintValue | ext/QRadioLink.pb.cc:254-258 | a read takes the bytes up to the first below 128, and its value is the sum of their low seven bits times the powers of 128 |
| ProtoWire.VarintRefused | ext/QRadioLink.pb.cc:254-258 | it fails exactly where none of the bytes within the limit is below 128 |
| ProtoWire.TagIs | ext/QRadioLink.pb.cc:248-250 | a tag is the low 32 bits of a varint, 0 where there is none |
| ProtoWire.SkipTable | ext/QRadioLink.pb.cc:318-319 | what is skipped and kept for each wire type, broken input included |
| ProtoWire.FieldTable | ext/QRadioLink.pb.cc:386-389 | how an unknown field is written for each wire type |
| ProtoWire.FieldRoundTrip | ext/QRadioLink.pb.cc:387-390 | a kept unknown field, groups inside groups included, is written so that skipping it keeps the same field |
| ProtoWire.SkipFieldLocal | ext/QRadioLink.pb.cc:318-319 | skipping a field does not depend on what follows it |
| ProtoWire.FieldsSizeIsLength | ext/QRadioLink.pb.cc:425-430 | the size computed for unknown fields is the number of bytes they are written as |
| ProtoMessage.ExpectedTag | ext/QRadioLink.pb.cc:262-263 | jumping to the next field's label where its tag follows is what the top of the loop would do |
| ProtoMessage.ValueTable | ext/QRadioLink.pb.cc:607-713 | the value read into a field: the low 32 bits, whether any of 64 bits is set, or a counted string, cut short or not |
| ProtoMessage.ValueForm | ext/QRadioLink.pb.cc:363-392 | the bytes written for a value; a flag is the byte 1 or 0 |
| ProtoMessage.ConcatenationIsMerge | ext/QRadioLink.pb.cc:450-467 | parsing a message consumed whole followed by any bytes is merging the two separate parses: the same verdict, last value wins, unknown fields in order |
| ProtoMessage.MergeAssociative | ext/QRadioLink.pb.cc:450-467 | merging is associative and the empty message is neutral |
| ProtoMessage.ParseThrough | ext/QRadioLink.pb.cc:242-331 | parsing goes on after an input consumed whole as if it had been two inputs |
| ProtoMessage.ParseOnto | ext/QRadioLink.pb.cc:242-331 | what a message held before changes neither the verdict nor what the input contributes |
| ProtoMessage.SizeIsLength | ext/QRadioLink.pb.cc:394-436 | the computed size is the number of bytes serialising writes, for every message |
| ProtoMessage.ParseSerialized | ext/QRadioLink.pb.cc:363-392 | parsing what was serialised succeeds and restores every value, every presence and every unknown field |
| ProtoMessage.ParsedIsProper | ext/QRadioLink.pb.cc:242-331 | everything the parser can produce, after a failure too, is a message those two theorems cover |
| ProtoMessage.Normalises | ext/QRadioLink.pb.cc:242-392 | whatever bytes were accepted, writing the message and parsing it again changes nothing |
| PresenceBits.SetsOneBit | ext/QRadioLink.pb.h:363-453 | each generated mask sets its own presence bit and keeps all others |
| PresenceBits.SetField | ext/QRadioLink.pb.h:363-453 | setting a field and its bit changes the message in that field only |
| ParametersMessage.Parameters.MergePartialFromCodedStream | ext/QRadioLink.pb.cc:242-331 | for every input and every outcome of the tag hints, the goto-driven parser returns the flag and the message of the plain loop that reads a tag and stores or skips a field, what a failed parse leaves behind included |
| ParametersMessage.Parameters.SerializeWithCachedSizesToArray | ext/QRadioLink.pb.cc:363-392 | writes the serialisation at the target and nothing else |
| ParametersMessage.WireForm | ext/QRadioLink.pb.cc:363-392 | the message byte by byte: tags 8, 16, 24, 32 each before its value, then the unknown fields |
| ParametersMessage.Parameters.ByteSize | ext/QRadioLink.pb.cc:394-436 | the accumulated total is the message's size |
| ParametersMessage.Parameters.MergeFrom | ext/QRadioLink.pb.cc:450-467 | the merge of the two messages |
| ParametersMessage.Parameters.IsInitialized | ext/QRadioLink.pb.cc:481-485 | true exactly when the required field is present |
| ParametersMessage.Parameters.Clear | ext/QRadioLink.pb.cc:222-240 | the empty message |
| JoinConferenceMessage.JoinConference.MergePartialFromCodedStream | ext/QRadioLink.pb.cc:607-713 | as for Parameters, with a text field among the numbers, cut short or not |
| JoinConferenceMessage.JoinConference.SerializeWithCachedSizesToArray | ext/QRadioLink.pb.cc:755-795 | writes the serialisation at the target and nothing else |
| JoinConferenceMessage.WireForm | ext/QRadioLink.pb.cc:755-795 | the message byte by byte: tags 8, 16, 24, 34, 40 each before its value, then the unknown fields |
| JoinConferenceMessage.JoinConference.ParseServerIp | ext/QRadioLink.pb.cc:661-670 | the string field is present after its label whether or not the read succeeds, with what arrived of it |
| JoinConferenceMessage.JoinConference.ByteSize | ext/QRadioLink.pb.cc:797-846 | the accumulated total is the message's size |
| JoinConferenceMessage.JoinConference.MergeFrom | ext/QRadioLink.pb.cc:860-880 | the merge of the two messages |
| JoinConferenceMessage.JoinConference.IsInitialized | ext/QRadioLink.pb.cc:894-898 | true exactly when the three required fields are present |
| LeaveConferenceMessage.LeaveConference.MergePartialFromCodedStream | ext/QRadioLink.pb.cc:987-1031 | as for Parameters, for a single flag |
| LeaveConferenceMessage.LeaveConference.SerializeWithCachedSizesToArray | ext/QRadioLink.pb.cc:1048-1062 | writes the serialisation at the target and nothing else |
| LeaveConferenceMessage.WireForm | ext/QRadioLink.pb.cc:1048-1062 | the message byte by byte: tag 8 and the byte 1 or 0, then the unknown fields |
| LeaveConferenceMessage.LeaveConference.ByteSize | ext/QRadioLink.pb.cc:1064-1083 | the accumulated total is the message's size |
| LeaveConferenceMessage.LeaveConference.MergeFrom | ext/QRadioLink.pb.cc:1097-1105 | the merge of the two messages |
| LeaveConferenceMessage.LeaveConference.IsInitialized | ext/QRadioLink.pb.cc:1119-1123 | true exactly when the flag is present |
| PeerQuery.TelnetServer.ProcessCommand | telnetserver.cpp:133-177 | what each kind of request, of every content, is answered with or signals, type and size byte of every reply included; a size byte below 2 is ignored |
| PeerQuery.Controller.GetStationParameters | controller.cpp:273-288 | sends the framed request for the station and marks it waiting |
| PeerQuery.Controller.SetStationParameters | controller.cpp:290-308 | takes the three values of an answer into the station and into its table row, and nothing from another message type |
| PeerQuery.QueryReturnsTheRow | controller.cpp:273-306 | the request, answered by the peer and applied on return, gives exactly the peer's row for the station for all 32-bit values, -1 included; both bodies are 2 to 24 bytes long |
| PeerQuery.Query | telnetserver.cpp:133-157 | the same as an exchange between the two objects: the caller's station ends with the peer's row and no longer waits |
| PeerQuery.RequestSizes | controller.cpp:276-284 | a request body is 2 to 6 bytes for every station id, so the size test never rejects it |
| PeerQuery.RequestBytes | controller.cpp:276-287 | the request byte by byte: type 0, size, station id as field 1 |
| PeerQuery.AnswerBytes | telnetserver.cpp:140-157 | the answer to it byte by byte: type 0, size, station id, in_call, conference and called_by as fields 1 to 4, with 0, -1 and 0 for a station not in the table |
| PeerQuery.MissingIsZero | ext/QRadioLink.pb.cc:222-240 | a field that did not arrive reads as 0 |
| PeerQuery.AnswerSizes | telnetserver.cpp:143-156 | an answer body is 8 to 24 bytes, so the one-byte size holds it |
| Roster.RemoveFromSkips | mumbleclient.cpp:245-256 | the loop that removes at i and still advances i leaves what a pass that overlooks the entry after each deleted one leaves |
| Roster.RemovalIsExact | mumbleclient.cpp:318-329 | it deletes exactly the session's entries and keeps the others in order if and only if no two of them are neighbours; with distinct sessions it does |
| RosterLaws.RosterIsAMap | mumbleclient.cpp:234-329 | one message: distinct sessions stay distinct, and the vector as a map from session to station is updated or extended by another's UserState and loses the entry on our own and on a UserRemove |
| RosterRuns.StepKeepsDistinct | mumbleclient.cpp:225-476 | no message, dialled number or command makes distinct sessions collide, whatever the radio ids and session numbers |
| RosterEffects.OthersUserState | mumbleclient.cpp:258-277 | another session's UserState, field by field: the stations of that session get the channel carried, or 0, and the flags and callsign present; all other stations and fields stay |
| RosterEffects.NewUserState | mumbleclient.cpp:278-294 | one that names a session not present adds that station at the end, with every field given; no other does |
| RosterEffects.ConferenceOverRuns | mumbleclient.cpp:225-476 | a station's conference after its last UserState is the channel carried, or 0, over every run that does not call, disconnect or dismiss it |
| RosterEffects.RunLeavesAlone | mumbleclient.cpp:225-476 | no run changes any field of a station that no event of it names |
| RosterEffects.ChannelAfter | mumbleclient.cpp:230-246 | the channel after any UserState that announces no conference channel of ours: taken over when it is ours or our session is unknown, else kept; nobody is called |
| RosterEffects.WithoutFirst | mumbleclient.cpp:318-329 | what exact removal leaves: each station of another session, in order |
| RosterRuns.RunKeepsDistinct | mumbleclient.cpp:225-329 | sessions stay distinct over every run, so each removal loop deletes exactly the named session and keeps the others in order |
| RosterRuns.RunRefinesMap | mumbleclient.cpp:225-476 | over every run the vector stands for a map from session to station: another's UserState inserts or updates, our own and a UserRemove remove, and calls and commands change nothing in it but the call fields |
| RosterRuns.OwnStaysAway | mumbleclient.cpp:234-294 | no step, from any roster, brings our own session into it |
| RosterRuns.OwnEntryGoesForGood | mumbleclient.cpp:234-257 | with distinct sessions, a UserState of our own removes our entry and no run after it brings the entry back |
| RosterLaws.OnlyTheNamedStation | mumbleclient.cpp:364-445 | with distinct radio ids a call pulls, and a disconnect releases, exactly the station of that id, with the result codes and the one message sent |
| RosterEffects.CallEffect | mumbleclient.cpp:364-393 | a call, field by field and with its message: marked by us, in call, in our channel; or the conference it is in |
| RosterEffects.DisconnectEffect | mumbleclient.cpp:414-445 | a disconnect, field by field and with its message, or the code of the refusal |
| RosterLaws.DisconnectAllIsExact | mumbleclient.cpp:447-476 | releases exactly the stations held in the present channel, one message each in roster order; called again it changes and sends nothing |
| RosterEffects.ReleaseAllEffect | mumbleclient.cpp:447-476 | releasing everybody, field by field for every station, the messages in roster order |
| CallOwnership.CallKeepsMarks | mumbleclient.cpp:364-393 | with distinct sessions, a call keeps every station marked as called by us held if and only if it is safe: each station it marks is ourselves, already held, or the last of that radio id with a nonzero session |
| CallOwnership.CallThenReleaseAll | mumbleclient.cpp:364-473 | after a call, releasing everybody sends home only stations pulled by us and not released since if and only if the call was safe |
| CallOwnership.CallFromReaches | mumbleclient.cpp:366-379 | the loop of a call assigns to exactly the stations of that radio id before the first busy one, and ends with the last of them or at the busy one |
| CallOwnership.ReleasesOwned | mumbleclient.cpp:447-473 | releasing everybody is owned exactly if all others in our call are held |
| CallOwnership.StepExact | mumbleclient.cpp:225-476 | every message, dialled number and command keeps all marks held if and only if the call in it, if any, is safe; then every release it sends is of a station held |
| CallOwnership.RunExact | mumbleclient.cpp:225-476 | over every run the marks are held throughout if and only if every call is safe when it is made; then every station sent home was pulled by us and not released since |
| CallOwnership.ReleasesBounded | mumbleclient.cpp:364-473 | in any log whose releases are owned, releases of a station, plus one while it is held, are at most its pulls |
| ServerGuarantee.ServedIsSafe | ext/Mumble.proto:93-113 | if every station the server introduces has a nonzero session and a radio id nobody present has, every call of every run is safe |
| ServerGuarantee.EveryReleaseIsOurs | mumbleclient.cpp:364-473 | from a quiet start, over every such run, another station is sent to channel 1 only while the last thing that happened to it was our pull, and releases never outnumber pulls |
| ServerGuarantee.SharedRadioIdBreaksOwnership | mumbleclient.cpp:364-393 | a run from an empty roster: two stations appear under one radio id, the id is dialled, our channel announced, everybody dismissed; the first station is sent home without ever having been pulled |
| ServerGuarantee.SessionZeroBreaksOwnership | mumbleclient.cpp:379-380 | a run from an empty roster: a station with session 0 is called without a message and sent home with one |
| ServerGuarantee.OwnSessionZeroBreaksOwnership | mumbleclient.cpp:417-431 | a run from an empty roster with own session 0: a station nobody called is sent home |
| MumbleClient.MumbleClient.ProcessUserState | mumbleclient.cpp:225-312 | the station objects, the channel and the driver end as the state machine says, the slot called in the middle included |
| MumbleClient.MumbleClient.ProcessUserRemove | mumbleclient.cpp:314-347 | the removal loop on the vector of objects is the state machine's |
| MumbleClient.MumbleClient.CallStation | mumbleclient.cpp:364-393 | new state, message and result code are the state machine's |
| MumbleClient.MumbleClient.DisconnectStation | mumbleclient.cpp:414-445 | new state, message and result code are the state machine's |
| MumbleClient.MumbleClient.DisconnectAllStations | mumbleclient.cpp:447-476 | the loop over the objects is the state machine's |
| MumbleClient.MumbleClient.DisconnectFromCall | mumbleclient.cpp:395-412 | in a conference, asks for channel 1, muted; else nothing |
| MumbleClient.MumbleClient.JoinChannel | mumbleclient.cpp:349-362 | asks to move, and takes the channel as its own at once |
| MumbleClient.MumbleClient.CreateChannel | mumbleclient.cpp:489-524 | asks for the channel, then unmutes itself |
| MumbleClient.Station.constructor | station.cpp:19-34 | the defaults of a new station |
| MumbleClient.Station.Update | mumbleclient.cpp:267-274 | an update stores the channel carried, or 0, as the conference; mute, deaf and callsign change exactly where the message has the field; nothing else changes |
| MumbleClient.DtmfCommand.HaveCall | dtmfcommand.cpp:38-65 | driver and client end as the state machine says |
| MumbleClient.DtmfCommand.ChannelReady | dtmfcommand.cpp:67-94 | driver and client end as the state machine says |
| MumbleClient.DtmfCommand.HaveCommand | dtmfcommand.cpp:96-140 | driver and client end as the state machine says |
| RosterEffects.CommandB | dtmfcommand.cpp:110-118 | command B: in a conference asks for channel 1, muted and deafened, else sends nothing; the conference is forgotten, the roster kept |
| RosterEffects.CommandA | dtmfcommand.cpp:120-128 | command A: the releases of the stations held, in roster order, then as B |
| RosterEffects.Command9 | dtmfcommand.cpp:129-133 | command #9 changes and sends nothing |
| RosterEffects.CommandNumber | dtmfcommand.cpp:134-139 | any other number disconnects the station of that radio id exactly if we called it into our channel, and else changes nothing |
| RosterEffects.StripFirst | dtmfcommand.cpp:42-50 | what stripping is: control keys dropped, the others kept in order |
| Agc.AgcState.constructor | ext/agc.cpp:35-57 | the initial state, with the target level clamped to one half to one |
| Agc.AgcState.Process | ext/agc.cpp:59-115 | the loop over a buffer of any length, in place, ends in the state and the samples of the run over those samples; gain, peak meter and counter stay in range, no division by zero, every narrowing exact |
| Agc.StateIsFold | ext/agc.cpp:72-113 | after n samples the counter is n mod 800, the peak meter covers the unfinished window, and the gain is the fold over the peaks of the n / 800 complete windows |
| Agc.OutputIsScaled | ext/agc.cpp:113-113 | every output y of input x satisfies y * 65536 <= x * g < (y + 1) * 65536 for the gain g after the windows complete at that sample; at unity it is x |
| Agc.GainNext | ext/agc.cpp:90-111 | each complete window: a peak of at most 800 is counted as silence; a louder one moves the gain by a quarter (after more than 40 silent ones) or a twentieth of the distance to the upper half of the wrapped product |
| Agc.PeakForIs | ext/agc.cpp:46-54 | the target level in fixed point, clamped to one half to one |
| Agc.ChunkingDoesNotMatter | ext/agc.cpp:59-115 | feeding two buffers is feeding their concatenation, in state and in samples |
| Agc.ApproachLands | ext/agc.cpp:94-99 | each step of the gain lands between the old gain and the window's target, never past it |
| Agc.GainNeverOverflows | ext/agc.cpp:80-87 | the overflow test is never true |
| Agc.OutputsNoLouder | ext/agc.cpp:113-113 | over every run, no output is louder than its input |
| Agc.AmplifyShrinks | ext/agc.cpp:113-113 | scaling by a gain of at most unity keeps the sign, shrinks the magnitude and fits 16 bits |
| Agc.PeakIsLargest | ext/agc.cpp:69-76 | the peak of a window is the largest magnitude in it, at least 1 |
| Agc.TargetRange | ext/agc.cpp:94-94 | the target gain, in wrapping 32-bit unsigned arithmetic, is below unity for every peak and level |
| Agc.TargetIs | ext/agc.cpp:94-94 | it is the upper half of (ipeak / peak * 62259) modulo 2^32 |
| Agc.ApproachIs | ext/agc.cpp:96-99 | the step: a quarter of the distance rounded down, or a twentieth toward zero |

## Left out

- Sockets, TLS, reconnection, threads and signal delivery: a message, a block of samples or a key is one step, and the slot connected to `channelReady` runs at once, in the middle of `processUserState`.
- TCP reassembly: one message per read, at least six bytes, as the source assumes; the length field is read and not used, as there.
- Opus, Codec2, PulseAudio, speech and SQLite: audio is an opaque byte string, the frame count a parameter, the station table a map.
- `ext/Mumble.pb.cc` and the other control messages (ServerSync, ChannelState, Ping, CryptSetup): UserState and UserRemove are datatypes with optional fields; session ids are the 32-bit pattern read as a signed number.
- Operators of the packet stream for QString, bool, float, double, sets and pairs. The runs of `append` and of `next()` calls in one branch are grouped into `AppendEach` and `NextEach`.
- The header byte of a voice frame is kept apart from the stream over `data + 1`; encrypted UDP is not part of this model, which follows the branch without encryption.
- Goertzel.ResultIsBin: does not model floating-point rounding, infinities or NaN; cosine and sine are any c, s on the unit circle, and `Agc.PeakFor` takes the level as an exact real.
- DtmfDecoder.DtmfDecoder.Step: the letters of the blocks are an arbitrary stream (`Receiver` joins them to the samples), and the time-out that only resets a clock is left out; the counters of the vote are a map from symbol to count. The block length of 512 and the threshold of 100 are parameters.
- Agc.AgcState.Process: does not model the silence counter beyond 2^31 silent windows (about seven years); the bodies of the two branches proved unreachable are absent.
- ParametersMessage.Parameters.ByteSize: sizes are unbounded; the library's limit of 2^31 bytes on a whole message is not modelled (its limit on one string is).
- ProtoWire.FieldRoundTrip: the library's varint, tag and skip routines are not part of the repository; they follow the Protocol Buffers encoding guide, with groups nested at most 100 deep.
- JoinConferenceMessage.JoinConference.MergePartialFromCodedStream: the UTF-8 check of the text field, which only logs, is left out.
- PeerQuery.TelnetServer.ProcessCommand: the body of a reply whose message exceeds its one-byte size (possible only when the request carried unknown fields) is not specified beyond its length, as the source sends uninitialised bytes; data shorter than two bytes is excluded, as the source reads both unconditionally.
- CallOwnership.RunExact: assumes a nonzero own session; with own session 0 every newcomer counts as called by us, as the third run of `ServerGuarantee` shows.
- ServerGuarantee.EveryReleaseIsOurs: assumes what the server guarantees; `CallOwnership.RunExact` is the statement without that assumption.
- Dialling.DialledNumberIsCalled: assumes distinct radio ids and no session 0 in the roster at the announcement, as the server guarantees.
- MumbleClient.MumbleClient.ProcessUserState: the list for the display, the log output and the pause before deletion are left out; mute and deaf are unset until the server mentions them, as the constructor leaves them; the removal of our own entry is noted in the log although the source announces only removals by UserRemove.
- Roster.HaveCommand: the command that reads out the stations only speaks.
- Permanence of a conference id when a UserState names no channel: the source overwrites it with the default, and so does the model.
- The rest of `controller.cpp`, the settings, `ext/vox.cpp` and `ext/goertzel.cpp`: unused at run time or only easy members.
