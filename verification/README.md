# A verified model of a selective-repeat file transfer

The repository transfers a file over datagrams with a selective-repeat protocol: a sender and a receiver,
each with a wrapping sliding window and a linked-list packet buffer, a packed packet format with two CRCs,
and a strictly monotonic clock whose readings identify datagrams. This project models both programs and
proves what they promise each other.

## How it is built

There are two levels.

*The programs.* `Clock.dfy`, `Packet.dfy`, `Window.dfy`, `Receiver.dfy` and `Sender.dfy` hold classes whose
fields the methods update in place, as the C code does: the packet structure, the linked list that is
spliced through pointers to pointers (`Link` is the C `struct node **`), the clock's static variables, and
one iteration of either main loop. Each method is proved against a specification function on values.
`Programs.dfy` has the two programs from start to end, and `Transfer.dfy` runs them on what arrives in a run of
the whole system.

*The specifications.* `Lists.dfy`, `Buffer.dfy`, `Ring.dfy` and `Codec.dfy` give the language; `ReceiverSpec.dfy`
and `SenderSpec.dfy` say what one datagram and one iteration do. `CodecBytes.dfy`, `SenderLaws.dfy` and `Answers.dfy`
say what these come to, on the bytes of a datagram and in terms of what goes in and comes out. `ReceiverRuns.dfy`, `StreamSafety.dfy`,
`PrefixSafety.dfy`, `SenderRuns.dfy`, `FileStream.dfy` and `Protocol.dfy` are about whole runs of the receiver,
of the sender, and of both joined by a network. `Delivery.dfy`, `LongDelivery.dfy` and `FilePrefix.dfy` have the
main theorems about both; `DuplicateAck.dfy`, `WrapAround.dfy` and `OldCopy.dfy` hold runs that go wrong, the last
two branching off the undisturbed runs of `Lockstep.dfy`.

The main results:

- `Delivery.LosslessDelivery`: over a network that loses, repeats, reorders and truncates, and for at most 256
  packets, every packet sent is always in a buffer or consumed, and when the sender's loop exits the output is the
  whole file, provided that every ACK handled is harmless. `Delivery.SenderLosesNothingIffHarmless` shows that
  this condition is exact at each step, `Delivery.DeliveryIfEchoesAreFound` has one that the sender itself can
  check, and `DuplicateAck.RepeatedAckLosesData` is a run in which an ACK that the network merely repeats makes the
  sender exit although the receiver has only the first 512 bytes.
- `LongDelivery.LongFileDelivery`: the same for files of any length, provided that intact packets that arrive are
  not too old (225 packets behind those written), that no two packets in the sender's buffer have the same number,
  and that every ACK handled is harmless. Packets are told apart by their index in the stream.
  `LongDelivery.LosesNothingIffHarmlessAt` shows that the condition on ACKs is exact at each step, and
  `LongDelivery.ShortRunsAreOrderly` that the other two always hold with at most 256 packets.
- `FilePrefix.OutputIsPrefixOfFile`: for files of any length, whatever is lost and whatever ACKs are handled, the
  output is a prefix of the file, as long as the intact packets that arrive are copies of stream packets between
  225 behind and 255 ahead of those written (or of the last 256 of the stream). With at most 256 packets nothing
  has to be assumed: `FilePrefix.OutputIsPrefixOfShortFile`.
- `OldCopy.BoundIsExact`: with a clock quick enough, the file is delivered in every harmless run in which the sender
  exits, and the output is a prefix of the file in every run, if and only if the file has at most 256 packets. For
  every longer file `OldCopy.OldCopySpoilsFile` is a run, with harmless ACKs only, in which an old copy that comes
  late is written after the whole file, and the sender exits; and `WrapAround.LateAckLosesPacket` is one in which
  an ACK that comes late makes the sender drop a packet.
- `Transfer.RunPrograms`: the two programs on the heap, given what arrives in a run of the system, send, write and
  exit as that run says; so that all the above holds of them.
- `PrefixSafety.OutputIsPrefix` and `PrefixSafety.AckMeaning`: the output and the meaning of an ACK for the receiver
  alone, for streams of any length, with sequence numbers going round. `StreamSafety.NearCopiesAreRecognised` shows
  that the bound on old copies in their hypothesis is exact.
- `SenderRuns.TimestampsIdentifyDatagrams`: no two DATA datagrams ever sent share a timestamp.
  `SenderRuns.BufferedIsLastSent`: each buffered packet has the timestamp of the last datagram with its number, all
  the time, if and only if no two buffered packets ever have the same number.
- `SenderLaws.IterationTells`: exactly what an iteration sends, again and for the first time, and to which packet a
  NACK makes a difference; `SenderLaws.SendsWithinWindow`: in every run the window last advertised is respected.
  `Answers.EveryReplyAnswers`: in every run, each NACK asks for and each ACK echoes a datagram that was sent.
- `PrefixSafety.RunNeverFills`: the receiver's buffer always has room. `Delivery.SenderRunAhead`: with at most 256
  packets and harmless ACKs, the sender has sent at most 61 packets more than were written.
- `Codec.DecodeAcceptsExactlyEncodings`: both round trips at once, for any CRC function. `CodecBytes.StatusOnBytes`:
  which code decoding gives, on the bytes, with what each CRC covers.

## Where the code and its documentation disagree

The model follows the code.

- `window_pop_timestamp` removes the front packet when no packet has the timestamp (`src/window.c:175-186`); its
  header promises NULL (`src/window.h:107-110`). This is the reason for the hypothesis of `LosslessDelivery`.
- `handle_ack` compares sequence numbers with `<` and not modulo 256 (`src/sender.c:56`);
  `SenderSpec.CumulativeIffSameRound` says exactly when that is right. The receiver cannot tell a packet from one
  256 packets older. The theorems in `Delivery` are therefore about files of at most 256 packets, EOF included, and
  those in `LongDelivery` and `FilePrefix` make assumptions on what arrives.
- `window_slide_to` may move the sender's window back on an old ACK (`src/sender.c:68`):
  `SenderLaws.WindowFollowsReplies` has it start at the number of the last ACK, whichever that is.
- An empty packet does not slide the receiver's window (`src/receiver.c:150-158`).
- The receiver does not look at the packet type, and does not answer packets outside its window
  (`src/receiver.c:74-78`).

## What is assumed

- The CRC is any function from bytes to 32-bit numbers.
- The readings of the system clock are any sequence, standing still and going back included. Timers are 32-bit
  numbers in the code; runs are considered as long as the timers that an iteration may set fit (`Timely`).
- A datagram that arrives was sent, whole, or is the header of one that was sent with TR set, or does not decode
  (`Protocol.CanArrive`). It may arrive any number of times, in any order, or never.
- An iteration of the sender and the handling of a datagram by the receiver are single steps of a run.
- `recv` returns at most the 528 bytes of the buffer it is given.
- Reading the input gives 512 bytes as long as there are that many. Writing and sending succeed.
- `max_seqnum + 1` does not overflow `size_t`; the lemmas about window membership also need that `2 * max_seqnum` does not.

Methods that have no counterpart of their own in C are parts of one C function, cut out to keep each proof
small; the table names the lines they come from.

## Model

| member | source | states |
|---|---|---|
| Delivery.LosslessDelivery | src/sender.c:46-80 | Over any such network and for at most 256 packets, if every ACK handled is harmless, then each packet sent is in the sender's buffer, in the receiver's buffer, or consumed; and once EOF is sent and nothing is buffered, the output is the whole file |
| LongDelivery.LongFileDelivery | src/sender.c:46-80 | For files of any length, if intact packets that arrive are in reach by the index they were sent with, no two buffered packets of the sender ever have the same number, and every ACK handled is harmless: each packet sent is in the sender's buffer, in the receiver's buffer, or consumed; and once EOF is sent and nothing is buffered, the output is the whole file |
| LongDelivery.LosesNothingIffHarmlessAt | src/sender.c:55-79 | For files of any length, from a state of such a run without loss, and unless numbers then coincide: an iteration of the sender keeps every packet somewhere if and only if the packets numerically below the ACK it handles, if any, are with the receiver, and the echo is found or the front packet that goes instead is with the receiver |
| LongDelivery.RunStaysGood | src/sender.c:133-270 | In every state of such a run, whatever ACKs were handled: each buffered packet is the latest of the stream with its number, its timestamp is on a datagram sent with that index, and every ACK in flight echoes a datagram whose packet, by index, the receiver has |
| LongDelivery.IterationExchanges | src/sender.c:163-270 | What an iteration sends is in the buffer after it; what is in the buffer was there before or was just sent; and what was sent is a packet buffered before with a new timestamp, or the next one of the stream |
| LongDelivery.ShortRunsAreOrderly | src/sender.c:133-270 | With at most 256 packets the assumptions on arrivals and on numbers hold in every run |
| LongDelivery.HarmlessIffHarmlessAt | src/sender.c:55-79 | With at most 256 packets the two conditions on ACKs, by number and by index, are the same |
| Transfer.RunPrograms | src/sender.c:303-309 | The programs on the heap, started afresh and given what arrives in a run of the system: the sender sends byte by byte what the run says and exits exactly if the run does, the receiver aborts, writes and replies as the run says; the file is delivered under the hypotheses of the two theorems on delivery |
| Transfer.SenderProjects | src/sender.c:303-309 | What a run of the system does at the sender is a run of the sender with the responses that arrive there |
| Transfer.ReceiverProjects | src/receiver.c:228-231 | What a run of the system does at the receiver is what the receiver does with the packets that arrive there, replies included |
| Programs.SendFile | src/sender.c:272-317 | The sender program on the heap goes through a run of the sender, turn by turn as long as the loop guard holds and something is received; its datagrams are the encodings of that run's history, and it exits exactly when the run is over |
| Programs.ReceiveFile | src/receiver.c:228-231 | The receiver program on the heap writes and sends what the run of the receiver over the decoded packets says, and aborts exactly when that does |
| Programs.SenderTurn | src/sender.c:306-309 | One turn of the loop on the heap is one step of the run, with everything the step sends |
| Programs.ReceiverTurn | src/receiver.c:47-190 | One datagram on the heap is one step of the run, or nothing if it does not decode |
| Delivery.SenderLosesNothingIffHarmless | src/sender.c:55-79 | With at most 256 packets, and from a reachable state without loss: an iteration of the sender keeps every packet somewhere if and only if the ACK it handles, if any, echoes a timestamp popped by the cumulative loop or still buffered, or leaves nothing to pop, or finds a front packet that the receiver has |
| Delivery.AckTakesSafePackets | src/sender.c:70-79 | The same condition, for what one ACK does to the sender's buffer |
| Delivery.HeldAfterAck | src/sender.c:46-80 | A number is buffered after an ACK exactly if it was before, is not below the ACK's, and is not that of the one extra packet |
| Delivery.RunIsSound | src/receiver.c:47-190 | With at most 256 packets, in every reachable state, whatever was lost: the pop assertion of the receiver never failed, buffered timers are told apart, the receiver is in step with the file, and every ACK in flight echoes a datagram whose packet the receiver has |
| FilePrefix.OutputIsPrefixOfFile | src/receiver.c:129-164 | For files of any length: if intact packets that arrive are copies of stream packets from 225 behind to 255 ahead of those written, or of the last 256 of the stream, then the pop assertion never fails, the output is exactly the packets written so far, and the window start is their number modulo 256 |
| FilePrefix.OutputIsPrefixOfShortFile | src/receiver.c:129-164 | With at most 256 packets the same in every reachable state, with nothing assumed of what arrives, and the window start is the number of packets written |
| FilePrefix.StepKeepsOrder | src/receiver.c:47-190 | For files of any length, one event with a packet in reach keeps timestamps apart, the receiver in step, and its buffer filled from what was sent; the count written grows by what the window slides |
| OldCopy.BoundIsExact | src/receiver.c:74-78 | With a clock quick enough for the whole file: all runs with harmless ACKs deliver the file when the sender exits, if and only if it has at most 256 packets; all runs write prefixes of the file, if and only if it has at most 256 packets; and the same for all runs with harmless ACKs |
| OldCopy.OldCopySpoilsFile | src/receiver.c:148-158 | For every file of more than 256 packets, and every clock quick enough for the whole file, a run exists in which all ACKs are harmless, the sender exits, and more than the file was written |
| Delivery.DeliveryIfEchoesAreFound | src/sender.c:46-80 | Lossless delivery, with at most 256 packets, under a condition the sender can check at each ACK: the echoed timestamp is popped by the cumulative loop or still buffered, or nothing is left to pop |
| Delivery.SenderRunAhead | src/sender.c:222-260 | With at most 256 packets and harmless ACKs: although only the occupancy of the buffer is checked before sending, at most 61 packets more were sent than were written |
| Delivery.NothingHeldMeansAllWritten | src/sender.c:303-309 | With at most 256 packets: if the loop guard of the sender is false and nothing was lost, the receiver waits at the EOF packet |
| DuplicateAck.RepeatedAckLosesData | src/window.c:175-186 | For every file of two data packets there is a run, with one ACK delivered twice and one datagram lost, in which the sender exits normally and the output is only the first 512 bytes |
| WrapAround.LateAckLosesPacket | src/sender.c:55-66 | For every file of more than 256 packets and every clock quick enough, a run exists in which every ACK handled is harmless, one for number 250 comes late, and packet 256 was sent, not received, and is in neither buffer |
| Lockstep.SendsNext | src/sender.c:133-270 | If a response leaves room in the buffer and a packet is left to send, and if less than one timeout has passed since the first clock call and every buffered timer is at least one timeout after it: the iteration adds the next packet of the stream to what the response left, and sends nothing else |
| Lockstep.WritesNext | src/receiver.c:127-181 | If the buffer is empty: the data packet the receiver waits for is written at once, even after EOF, and the ACK asks for the one after it |
| Lockstep.ConsumesEof | src/receiver.c:148-181 | If the buffer is empty: EOF in its turn is consumed, nothing is written, and the ACK still asks for its number |
| Lockstep.UpTo | src/sender.c:303-309 | If less than one timeout passes in all: every packet of the file can be brought into flight, all before it sent, written and acknowledged by harmless ACKs |
| Lockstep.UndisturbedRunDelivers | src/sender.c:303-309 | If less than one timeout passes in all: for a file of any length there is a run with harmless ACKs in which the sender exits and the output is the file |
| Protocol.ReceiverKeepsSound | src/receiver.c:47-190 | With at most 256 packets: a datagram handled by the receiver keeps the invariant of the system, does not move the window start back, and loses no packet the receiver had |
| Protocol.SenderKeepsSound | src/sender.c:133-270 | With at most 256 packets: an iteration of the sender keeps the invariant of the system, whatever it receives |
| Protocol.ReplyIsTruthful | src/receiver.c:80-187 | With at most 256 packets: every reply advertises 1 to 31 slots, and an ACK reports no more than the window start and echoes the timestamp of a sent datagram whose packet was consumed or is buffered |
| Protocol.ReceiverFollows | src/receiver.c:47-190 | With any number of packets: handling a packet in reach cannot abort the receiver, moves it at most 31 packets of the file forward, and accounts for all that was buffered |
| Protocol.NearIsPlaced | src/receiver.c:74-78 | A copy in reach that the window accepts has the content of the stream packet its place stands for |
| Protocol.NumbersAfterIteration | src/sender.c:218-270 | Sequence numbers buffered after an iteration are those the response left, in their order, preceded by at most one new number, the count of packets sent |
| Protocol.ArrivedWasSent | src/packet_implem.c:32-37 | Whatever decodes is a packet that was sent, or a DATA packet that was sent with TR set and its payload gone |
| PrefixSafety.OutputIsPrefix | src/receiver.c:47-190 | For streams of any length: if timestamps identify sequence numbers and intact packets are copies of stream packets between 225 before and 255 after the number written, then the pop assertion holds, the output is exactly the payloads written so far in order, the window starts right after them, and what is buffered lies strictly between 0 and 31 ahead |
| PrefixSafety.AckMeaning | src/receiver.c:127-181 | When an ACK is sent, the output is exactly the stream before its unwrapped number, the packet whose timestamp it echoes was written, is buffered or is the EOF just consumed, the window advertised is 31 minus the number buffered, and unwrapped ACK numbers do not decrease |
| StreamSafety.NearCopiesAreRecognised | src/receiver.c:74-78 | Among copies less than a round away, the window takes an accepted one for the packet it is if and only if it is at most 225 behind; then it accepts exactly the 31 packets from the next one on |
| PrefixSafety.RunNeverFills | src/receiver.c:110-125 | In every run, with any packets: between datagrams at most 30 packets are buffered, with distinct numbers in the window but not at its start, the full-buffer branch is dead, and the next reply advertises 1 to 31 slots |
| PrefixSafety.RunIsOnTrack | src/receiver.c:47-190 | The invariant behind the two theorems above: every buffered packet is a copy of the stream packet its distance from the window start stands for |
| PrefixSafety.StepStaysOnTrack | src/receiver.c:80-187 | One packet keeps that invariant, never moves the written count back, and is accounted for if it is acknowledged |
| StreamSafety.HandleStaysInStep | src/receiver.c:47-190 | A packet that fits the stream cannot abort the receiver; what is buffered keeps its place in the stream, what leaves the buffer was consumed, and an acknowledged packet is consumed or buffered |
| StreamSafety.DrainStaysInStep | src/receiver.c:129-162 | Draining keeps output and window start in step with the stream |
| StreamSafety.RunStaysInStream | src/receiver.c:134-145 | The payloads of a contiguous run are the next payloads of the stream, and the run cannot pass EOF |
| ReceiverRuns.DrainWritesMaximalRun | src/receiver.c:133-162 | With distinct timestamps and numbers the pop assertion always holds, and the loop writes exactly the maximal contiguous run of data from the window start, consumes EOF behind it without sliding, and keeps everything further away in order |
| ReceiverRuns.DrainOfEof | src/receiver.c:148-158 | EOF at the window start is taken out, the window stays, and the loop ends |
| ReceiverSpec.NeverFull | src/receiver.c:110-125 | One packet, whichever: if the numbers buffered are distinct, in the window and not at its start, this stays so, there was room, and the reply advertises 1 to 31 slots |
| ReceiverSpec.DrainKeepsSpread | src/receiver.c:133-162 | After draining, numbers are still distinct and in the window, and none is at its start |
| ReceiverSpec.StoreKeepsSpread | src/receiver.c:110-125 | A packet in the window finds room, and after storing it its number is buffered once |
| ReceiverSpec.SpreadIsSmall | src/receiver.c:110-125 | Pigeonhole: distinct numbers at least `least` from the window start fill at most 31 - `least` slots |
| SenderRuns.TimestampsIdentifyDatagrams | src/sender.c:133-270 | For any file, clock and responses, while timers fit 32 bits, at the top of every iteration: all DATA datagrams ever sent have pairwise distinct timestamps, and so have the buffered packets, each of which is as sent in some datagram |
| SenderRuns.BufferedIsLastSent | src/sender.c:133-270 | For any number of packets, at the top of every iteration: the timestamp of each buffered packet is that of the last datagram sent with its number, all the time, if and only if no two buffered packets ever have the same number |
| SenderRuns.ShortRunsAreDistinct | src/sender.c:260 | Which is so as long as at most 256 packets were sent |
| SenderRuns.NextIterates | src/sender.c:133-270 | Receiving, retransmitting and sending, one after the other on a sender and its history, are the iteration that the program on the heap refines |
| SenderRuns.IterationStamps | src/sender.c:133-270 | One iteration keeps this, although a NACK may put a colliding timer into the buffer |
| SenderRuns.RetransmitStamps | src/sender.c:104-127 | Retransmission makes the timers distinct again whenever the unexpired ones are |
| SenderRuns.NackLeavesPending | src/sender.c:82-98 | A NACK disturbs at most the timer of one packet, which then counts as expired |
| SenderRuns.IterationSyncs | src/sender.c:218-270 | What is sent and buffered are packets of the file's stream under their own number, with EOF sent exactly when the whole stream was, and the buffer and window bounded by 31 |
| SenderRuns.IterationKeepsLast | src/sender.c:133-270 | One iteration keeps this, whatever is received, if numbers are distinct after it |
| SenderRuns.SendIsNextPacket | src/sender.c:223-248 | The next chunk read becomes the next packet of the stream |
| SenderSpec.RetransmitResendsExpired | src/sender.c:104-127 | Exactly the packets expired at the start are sent, each once, by non-decreasing old timer, with the timers of successive clock calls; nothing else in the buffer changes, nor its order |
| SenderSpec.FreshTimers | src/sender.c:108-113 | Each new timer lies after the time at which expiry is checked |
| SenderSpec.ReadyAfterRefresh | src/sender.c:104-127 | The number of packets expired at the start goes down by one with each one resent, which bounds the loop |
| SenderSpec.AckRemovesExactly | src/sender.c:55-79 | An ACK removes the packets numerically below it and, unless one of those had its timestamp, one more if there is one: the first with the timestamp, else the first of the list; the others keep their order |
| SenderSpec.AfterAckIsSmaller | src/sender.c:55-79 | Survivors were buffered before and are not below the ACK |
| SenderSpec.CumulativeIffSameRound | src/sender.c:56 | With unwrapped indices less than 256 from the acknowledged one, the plain comparison keeps exactly the packets from the acknowledged one on if and only if no wrap-around lies between them |
| SenderSpec.ReceiveInTime | src/sender.c:163-218 | After waiting and a response, the clock calls left before timers overflow suffice for all retransmissions |
| FileStream.StreamSpellsFile | src/sender.c:222-248 | The first packets read from a file spell its beginning |
| FileStream.DataIsWholeFile | src/sender.c:222-268 | All data packets together are the file |
| FileStream.ReadOn | src/sender.c:222-268 | A read from the position reached gives the next packet of the stream and the next position, and is empty exactly at its end |
| FileStream.FileGivesStream | src/sender.c:265-268 | Only the last packet is empty |
| SenderLaws.IterationTells | src/sender.c:163-269 | If a response, if any, is an ACK or a NACK and the window is at most 31: of the packets it leaves buffered, exactly those whose timer is out are sent again, earliest first and each once, and with them the first one with the number of a NACK, timer out or not, provided that number is less than the window size after the window start; no other one is sent again or gets a new timer; then the next chunk is sent exactly if EOF was not and fewer are left than the window size, which becomes min(31, window advertised) with a response; and the window start becomes the number of an ACK |
| SenderLaws.DataEndsIteration | src/sender.c:185-187 | A DATA packet ends the iteration: nothing is sent, and the state is as before, except for the clock call of the wait |
| SenderLaws.SendsWithinWindow | src/sender.c:222-269 | In every run over responses that have a type: an iteration sends a packet for the first time if and only if it is not cut short, EOF was not sent, and fewer packets are left after the response than the window last advertised (31 at most, 1 before any), which the buffer then does not exceed |
| SenderLaws.WindowFollowsReplies | src/sender.c:68-209 | In every run over responses that have a type, the size of the sender's window is the one last advertised, in an ACK or a NACK, 31 at most, and it starts at the number of the last ACK handled, even if that goes back |
| Answers.HandleAnswers | src/receiver.c:74-181 | A packet 31 or more after the window start is ignored; a truncated one that is nearer changes nothing and gets a NACK with its own number; an intact one gets an ACK with its own timestamp and the new window start, unless the pop assertion fails; each reply advertises 31 minus the number buffered |
| Answers.CopyChangesNothing | src/receiver.c:110-111 | If the numbers buffered are distinct, in the window and not at its start: an intact packet with one of them is acknowledged and changes nothing, whatever it carries |
| Answers.EveryReplyAnswers | src/receiver.c:80-187 | In every run and for files of any length: each NACK has the number of a datagram that was sent, each ACK the timestamp of one, and each advertises 1 to 31 slots |
| CodecBytes.StatusOnBytes | src/packet_implem.c:58-107 | Which code decoding gives, on the bytes of the datagram: E_NOHEADER, E_TYPE, E_TR, E_LENGTH, E_UNCONSISTENT, E_CRC or success, each if and only if; the header CRC is that of the first eight bytes with bit 5 of the first cleared, the payload CRC that of the payload, both most significant byte first |
| CodecBytes.AcceptedOnBytes | src/packet_implem.c:58-107 | In what is accepted both CRCs hold, and the fields are those bits and bytes of the datagram |
| CodecBytes.EncodeOnBytes | src/packet_implem.c:109-134 | What is sent for a packet holds its fields, and both CRCs hold, on the bytes |
| CodecBytes.SameCrcSameHeader | src/packet_implem.c:32-37 | Two accepted datagrams with the same header CRC have headers that differ in TR only, unless the CRC function collides on them |
| CodecBytes.SameCrcSamePayload | src/packet_implem.c:42-44 | Two accepted datagrams with payloads of the same length and the same payload CRC have the same payload, unless the CRC function collides on them |
| Codec.DecodeAcceptsExactlyEncodings | src/packet_implem.c:58-134 | Decoding accepts a byte string as a packet if and only if the packet has a type, TR only on DATA and at most 512 bytes, and the string is its encoding |
| Codec.DecodeAfterEncode | src/packet_implem.c:109-134 | Decoding an encoding gives back every field, for any CRC |
| Codec.EncodeAfterDecode | src/packet_implem.c:58-107 | Encoding what was decoded gives back the very same bytes |
| Codec.EncodeIsInjective | src/packet_implem.c:109-134 | Different packets have different encodings |
| Codec.TruncationIsTransparent | src/packet_implem.c:29-56 | The header of a DATA datagram with TR set decodes to the same packet without its payload, since CRC1 ignores TR; other packets are then refused with E_TR |
| PacketStruct.Packet.Decode | src/packet_implem.c:58-107 | Filling a packet in place accepts and refuses as specified, reads no byte beyond the datagram, and leaves the unused part of the payload buffer alone |
| PacketStruct.Packet.Encode | src/packet_implem.c:109-134 | The buffer receives the encoding and nothing behind it changes; without type or room nothing is written, whatever the length, and the room is left or set to 0 |
| PacketStruct.Packet.SetPayload | src/packet_implem.c:261-274 | The bytes given are stored, the rest of the buffer is cleared, and a length over 512 changes nothing |
| PacketStruct.Packet.SetLength | src/packet_implem.c:233-244 | A shorter length clears the bytes it uncovers; over 512 nothing changes |
| PacketStruct.Packet.SetType | src/packet_implem.c:204-210 | Types 1 to 3 are stored, others refused without change |
| PacketStruct.Packet.SetTr | src/packet_implem.c:212-218 | TR is stored if it is one bit, and refused without change otherwise |
| PacketStruct.Packet.SetWindow | src/packet_implem.c:220-226 | Windows up to 31 are stored, others refused without change |
| PacketStruct.Packet.GetPayload | src/packet_implem.c:192-197 | The payload, or NULL exactly if it is empty |
| PacketStruct.SendPacket | src/util.c:159-166 | A packet with a type always fits the buffer, and its encoding is what is sent |
| MonotonicClock.Clock.GetMonotime | src/util.c:168-209 | The k-th call returns max(c_k - c_0, r_(k-1) + 1) cut to 32 bits, whatever the readings c are |
| MonotonicClock.TicksAreStrictlyMonotonic | src/util.c:168-209 | Results start at 0 and increase strictly while they fit in 32 bits |
| MonotonicClock.ElapsedIsLatest | src/util.c:183-197 | A result in closed form: the latest of all readings so far, each plus one microsecond for every call since |
| MonotonicClock.ToTimevalTruncates | src/util.c:178-181 | The time kept of a reading is its nanoseconds, truncated to microseconds |
| MonotonicClock.CallsInNanos | src/util.c:168-209 | Each result in nanoseconds of the readings: less than a microsecond from the latest of all readings so far, each plus one microsecond for every call since |
| MonotonicClock.TimerAdd | src/util.c:190-196 | Adding with carry adds microseconds |
| MonotonicClock.TimerSub | src/util.c:202-204 | Subtracting with borrow subtracts microseconds |
| MonotonicClock.TimerLess | src/util.c:187 | The comparison by seconds first is that of microseconds |
| MonotonicClock.MicroToTimeval | src/util.c:211-216 | The result is normal and stands for the same time |
| Ring.InWindowIffOffset | src/window.c:52-73 | The case distinction of `window_has` amounts to (s - pos) mod (max_seqnum + 1) < size |
| Ring.SlideShiftsWindow | src/window.c:56-73 | Sliding drops the old start and adds the successor of the old end, nothing else |
| Ring.SlideEndpoints | src/window.c:52-73 | Of these two, the one was in the window and the other was not |
| Ring.OffsetAfterSlide | src/window.c:56-58 | Sliding keeps the start in range and brings every other number one nearer |
| Ring.PlainOrderIffSameRound | src/sender.c:56 | Plain comparison of two wrapped numbers less than a round apart agrees with their true order exactly within one round |
| Window.Window.Create | src/window.c:24-36 | Only a size over the maximum is refused; a new window is an empty list |
| Window.Window.Slide | src/window.c:56-58 | The start moves to its successor and the buffer is untouched |
| Window.Window.SlideTo | src/window.c:60-63 | The start is set, forward or back |
| Window.Window.Resize | src/window.c:75-81 | A size over the capacity is refused without change; the buffer stays even if the new size is below its contents |
| Window.Window.Push | src/window.c:91-107 | Returns 0 if and only if fewer packets are buffered than `size`, and the list then gets one new node at its front; otherwise nothing changes |
| Window.Window.FindSeqnum | src/window.c:131-141 | The first packet in list order with the number, or NULL |
| Window.Window.UpdateTimestamp | src/window.c:143-154 | The first packet with the old timestamp, and no other packet, gets the new one; -1 exactly if there is none |
| Window.Window.PopNode | src/window.c:160-173 | The node a link points to, and only it, is spliced out of the acyclic list, wherever the link is stored |
| Window.Window.PopTimestamp | src/window.c:175-186 | The first match is spliced out, but the front node if there is no match, and nothing only from an empty list |
| Window.Window.FindMinTimestamp | src/window.c:188-198 | The link to the first node that attains the minimum |
| Window.Window.PeekMinTimestamp | src/window.c:200-206 | The first packet that attains the minimum, or NULL |
| Window.Window.PopMinTimestamp | src/window.c:208-211 | That packet is spliced out |
| Window.Window.FindMinSeqnum | src/window.c:213-223 | The link to the first node that attains the minimum |
| Window.Window.PeekMinSeqnum | src/window.c:225-231 | The first packet that attains the minimum, or NULL |
| Window.Window.PopMinSeqnum | src/window.c:233-236 | That packet is spliced out |
| Window.Window.PopAllByTimestamp | src/window.c:208-211 | Popping until the buffer is empty returns exactly the packets buffered, with what they said, in non-decreasing order of timestamps |
| Window.Window.PopAllBySeqnum | src/window.c:233-236 | The same by sequence numbers |
| Lists.PopMinSorts | src/window.c:208-236 | On keys: taking the first minimum until nothing is left yields a sorted permutation |
| Lists.FirstMinIsFirstIndex | src/window.c:143-154 | Looking for the value of the minimum finds the peeked element, even among ties |
| Lists.ScanFindsFirstMin | src/window.c:188-223 | The scan with a strict comparison ends at the first minimum |
| Buffer.KeepOrder | src/sender.c:55-66 | Filtering by number keeps the order and takes exactly the positions with such numbers |
| ReceiverProgram.Receiver.MainLoop | src/receiver.c:47-190 | One datagram: the program on the heap refines `ReceiverSpec.HandleDatagram`, reply bytes included, and fails only where the pop assertion does |
| ReceiverProgram.Receiver.Drain | src/receiver.c:131-162 | The loop terminates, with the buffer size as measure even for EOF, and ends in the specified state unless the pop assertion fails |
| ReceiverProgram.Receiver.DrainOne | src/receiver.c:134-161 | One round writes the packet, removes it and no other, slides unless it is empty, and finds the next one; it fails exactly if the packet is not the first with its timestamp |
| ReceiverProgram.Receiver.TakeOut | src/receiver.c:145-158 | The pop assertion holds exactly if the written packet is the first with its timestamp; then it alone is removed, and the window slides unless it is empty |
| ReceiverProgram.Receiver.Store | src/receiver.c:110-125 | The packet is buffered unless its number is or there is no room; a push fails only when the buffer is full |
| ReceiverProgram.Receiver.SendNack | src/receiver.c:86-101 | The bytes of a NACK with the number of the truncated packet and 31 minus the number buffered as window |
| ReceiverProgram.Receiver.SendAck | src/receiver.c:166-181 | The bytes of an ACK with the window start, 31 minus the number buffered as window, and the echoed timestamp |
| SenderProgram.Sender.MainLoop | src/sender.c:133-270 | One iteration on the heap refines `SenderSpec.Iterate`: new state, and every datagram sent, byte by byte and in order |
| SenderProgram.Sender.HandleAck | src/sender.c:46-80 | State as specified for any buffer; the pop assertion in the loop holds |
| SenderProgram.Sender.DiscardBelow | src/sender.c:55-66 | The loop terminates and removes exactly the packets below the ACK, and tells whether one had its timestamp |
| SenderProgram.Sender.DiscardTimestamp | src/sender.c:70-79 | The extra packet goes: first match, else front, else none |
| SenderProgram.Sender.HandleNack | src/sender.c:82-98 | Only a buffered packet in the window is touched, and only its timer |
| SenderProgram.Sender.RetransmitPackets | src/sender.c:104-127 | The datagrams sent and the timers left are those of the specification |
| SenderProgram.Sender.ResendExpired | src/sender.c:108-126 | The loop terminates, having sent exactly the specified datagrams in order |
| SenderProgram.Sender.Reschedule | src/sender.c:113-115 | Updating by the peeked minimum timestamp never fails and changes exactly the peeked packet, ties or not |
| SenderProgram.Sender.GetTimeout | src/sender.c:29-44 | Zero unless EOF was sent or as many are buffered as the window allows, or more; then the time to the first timer, no less than zero, and there is a packet to peek at |
| SenderProgram.Sender.MakePacket | src/sender.c:233-248 | No setter refuses the fields of a new packet |
| SenderProgram.Sender.Remember | src/sender.c:256-258 | The push cannot fail after the check for room |
| SenderProgram.Sender.SendNew | src/sender.c:222-269 | A new packet is sent and buffered exactly if there is room and EOF was not sent |
| SenderProgram.Sender.HandleResponse | src/sender.c:184-209 | ACK or NACK is handled, and the resize assertion holds |
| SenderProgram.ResendingNext | src/sender.c:108-126 | Each round of the retransmission loop moves one packet from what is left to send to what was sent |
| SenderProgram.NothingBelow | src/sender.c:56 | Once the least number is not below the ACK, no packet is |

## Left out

- Progress: nothing is proved about termination under fair loss; the receiver does not answer copies outside its window.
- Delivery.LosslessDelivery: claims nothing for more than 256 packets, where the file can be spoilt (see `OldCopy`) unless what arrives is restricted (see `LongDelivery`), nor when an ACK handled is not harmless, which loses a packet at that step.
- Programs.SendFile: asks that 35 clock calls per wait leave the timers within 32 bits.
- Sockets, `select`, address resolution, arguments, logging, opening and closing of files, and both `main` functions around the loops: input and output are parameters and results. A wait without a bound is a step in which nothing need arrive.
- Errors of `send`, `recv`, `fread`, `fwrite` and `calloc`, and the exits that follow them.
- The CRC32 algorithm: zlib is not part of this model.
- `free` and leaks: nodes and packets are not deallocated; that nothing removed is used again follows from the ghost contents of the list.
- `pkt_repr`, `pkt_code_to_str`, `pkt_set_crc1`, `pkt_set_crc2` and the plain field getters: one assignment or a table each.
- The in-memory layout of the packet structure: fields hold native numbers, network byte order appears in `Codec` only; the inline payload array is a sequence of 512 bytes that is replaced as a whole.
- Window.Window.Create: leaves out the one `max_seqnum` whose successor is 0 in `size_t`, by which `window_slide` would divide.
- PacketStruct.Packet.Encode: a packet with a length over 512 that nevertheless fits the room given is left out, because the C code reads past the payload then; the setters and the decoder exclude it.
- SenderProgram.Sender.MainLoop: timers that would pass 32 bits are left out, because the retransmission loop need not end then.
- SenderProgram.Sender.RetransmitPackets: the same.
- SenderProgram.Sender.ResendExpired: the same.
- Aliased packets: programs buffer each packet structure once, which their invariants state.
