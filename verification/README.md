# Verified models of the BFT file transfer, its CRC engine, the calendar and the HTTP handler registry

This Dafny project models the parts of the repository whose behaviour is hardest to see from the code alone,
and proves what they are for.

* **The BFT file transfer** (`Server`, `ServerProcess`, `Client`, `ClientProcess`, `Transfer`, `TransferSafety`,
  `TransferResults`, `TransferWitnesses`, `Answers`). The server's receive loop and the client's retry loops are classes and methods with the
  loops of the source; each is proved against a function of the state and one datagram or event. Those
  functions, two FIFO channels and the steps of losing, duplicating in place and damaging a datagram form one
  state machine. Every sequence of actions is a run; the theorems hold of all of them.
* **Datagrams** (`Datagram`, `DatagramMemory`): flags, constructors, the packed 512-byte image, the checksum,
  acknowledgements, and the way over the wire as `size()` bytes.
* **The CRC engine** (`Bits`, `Crc`, `CrcEngine`, `CrcStandard`): integers of any width are their bits, the least significant
  first. Bit loops, table, reflection, finalisation and continuation are proved for every width of at least
  8 that is the width of the integer type, and for all parameters; CRC-32 is the one of section 8 of RFC 1952
  and section 8.1.1.6.2 of ITU-T V.42.
* **The calendar of date.hpp** (`Calendar`, `CalendarOrder`): day counts and dates, with every conversion to
  `int`, `unsigned`, `short` and `unsigned char` written out; weekdays, months, indexed weekdays, and week
  dates of section 4.1.4 of ISO 8601:2004.
* **The handler registry of the HTTP server** (`Registry`): every interleaving of listener, handlers and
  shutdown over the mutex, the list and the flag.

`dafny verify dfyconfig.toml` checks everything.

## Assumptions

* Channels are FIFO. One sequence bit gives no safety on a channel that reorders.
* A damaged datagram fails its check. `Datagrams.CorruptionDetected` proves this for damage within 32
  consecutive covered bits; for wider damage it is an assumption.
* In the state machine of an upload nobody else sends to the server. `ServerModel.NonInterference` says what
  other senders can do to an open session.

## What the code does and its documentation does not say

* `aufg4/README.md:9-12` draws the flags before the data size; in the code the payload size comes first
  (`aufg4/bft_base/bft_datagram.hpp:48-50`). The model follows the code.
* A repeated SYN in an open session and a repeated FIN after the close are refused, not acknowledged again
  (`aufg4/bft_server/main.cpp:83-91`, `aufg4/bft_server/main.cpp:104-107`), and the refusal makes the client exit
  (`aufg4/bft_client/main.cpp:126-129`). So the loss of one SYN or FIN acknowledgement cannot be repaired by
  retransmission; `TransferResults.CompletableExactlyWhenNotLost` says exactly when an upload can still finish.
* A damaged datagram at an idle server uses a session that does not exist (`aufg4/bft_server/main.cpp:79`). In the model
  this is a terminal state.
* An aborted upload leaves an empty file if nothing was written (`aufg4/bft_server/file_writer.cpp:57-62`).
* `%V` is negative on the first two days of the smallest year, whose week year no `year` can hold.

## Model

| member | source | states |
|---|---|---|
| `TransferResults.UploadSafety` | aufg4/bft_server/main.cpp:110-118 | In every run over channels that lose, duplicate in place and damage: the server is at the client's message or one ahead, what it accepted is exactly the first messages of the upload, in order and each once, and the open session's file is the concatenation of the chunks accepted |
| `TransferResults.InFlight` | aufg4/bft_client/main.cpp:116-145 | In every run both channels carry, besides damage, aborts and refusals, only the client's current message and the one before and their acknowledgements, never the older behind the newer; an acknowledgement of the current message exists only once the server has accepted it |
| `TransferResults.FinishedMeansDelivered` | aufg4/bft_client/main.cpp:88-104 | When the FIN exchange returns, the server has accepted the whole upload, each message once, the session is closed and the file is the input byte for byte, for every length |
| `TransferResults.AllOrNothing` | aufg4/bft_server/main.cpp:94-102 | In every run in which the server saw the interrupted client's ABR the session is closed and the file, if below 2^64 bytes, is complete when the FIN had been accepted and otherwise absent or empty, never a non-empty prefix |
| `TransferResults.ClientEndsOnlyFor` | aufg4/bft_client/main.cpp:121-129 | In every run the client is refused only while its message is the SYN or the FIN or right after its SYN, so damage never ends an upload; it gives up only with a budget, and with that budget spent; once interrupted it exits only when the server has seen its ABR or after its fourth unanswered one |
| `TransferResults.CompletableExactlyWhenNotLost` | aufg4/bft_server/main.cpp:83-118 | With unlimited retries a reachable live state can still be completed by some schedule if and only if it is not the case that a SYN or a FIN was accepted, the client still repeats it and no acknowledgement of it is in flight |
| `TransferResults.LostForever` | aufg4/bft_client/main.cpp:118-144 | From a lost state no schedule whatever, with any budget, moves the client on or finishes the upload |
| `TransferResults.LostSynAckIsFatal` | aufg4/bft_server/main.cpp:83-91 | Concrete failing run: the loss of the one SYN acknowledgement ends every upload, because the repeated SYN is refused |
| `TransferWitnesses.DamagedSynCrashes` | aufg4/bft_server/main.cpp:77-81 | Concrete run: one damaged SYN at an idle server ends the server |
| `TransferWitnesses.DuplicatedSynCanBeRefused` | aufg4/bft_server/main.cpp:83-91 | Concrete run: the second copy of a duplicated SYN is refused, and the client that missed the first acknowledgement ends with failure |
| `TransferWitnesses.AbortGetsThrough` | aufg4/bft_client/main.cpp:27-44 | From every live state that keeps the invariant a schedule is constructed in which the client is interrupted, the server sees its ABR and closes, and the client exits |
| `TransferResults.Complete` | aufg4/bft_client/main.cpp:88-104 | From every live state that keeps the invariant and is not lost, a finite schedule is constructed that ends in a finished upload |
| `TransferResults.UploadTravels` | aufg4/bft_base/bft_datagram.cpp:47-84 | Every datagram of an upload and every acknowledgement of one survives the byte form: built, sent as its first bytes, received into a zeroed datagram and checked, it reads as the message sent; every chunk but the last fills a datagram of 512 bytes |
| `TransferSafety.RunKeepsInv` | aufg4/bft_server/main.cpp:72-119 | The inductive invariant over client, server and the contents of both channels is kept by every schedule |
| `TransferSafety.InitInv` | aufg4/bft_server/main.cpp:34-35 | The invariant holds of an idle server, a fresh client and empty channels |
| `TransferSafety.ServerAccepts` | aufg4/bft_server/main.cpp:110-118 | A server that has accepted k messages takes the next one: it acknowledges it, accepts it, and has then the session, bit and file of k + 1 acceptances, with SYN opening and FIN closing the session |
| `TransferSafety.ServerRereads` | aufg4/bft_server/main.cpp:83-113 | The message accepted last, read again, changes no file and no bit; it is acknowledged again, except that a repeated SYN and a repeated FIN are refused with ABR |
| `TransferSafety.ClientReads` | aufg4/bft_client/main.cpp:121-143 | Of everything that can be in flight, exactly the acknowledgement of the current message moves the client on, exactly a refusal ends it, and exactly the acknowledgement of its ABR ends an interrupted one; all else, damage included, leaves it as it was with all its retries |
| `TransferSafety.JudgeReply` | aufg4/bft_client/main.cpp:121-143 | Of everything that can be in flight, the client's tests accept exactly the acknowledgement of its current message, and give in exactly to an ABR and to the acknowledgement of one |
| `Transfer.RunAppend` | aufg4/bft_server/main.cpp:72-119 | A run of two schedules one after the other is the run of their concatenation |
| `ServerModel.ServerStep` | aufg4/bft_server/main.cpp:72-119 | Every step keeps the open session's file present and the byte counter equal to its length, modulo the counter's width; what the step answers and changes is stated by the members of ServerAnswers |
| `ServerAnswers.AnsweredExactly` | aufg4/bft_server/main.cpp:83-118 | Every intact datagram gets one answer: it acknowledges the datagram if and only if that is an ABR, a SYN at an idle server, or a regular datagram from the owner's IP address; any other makes every waiting client end. The owner's regular datagrams are answered at the address of its SYN, whatever port they come from, all others at their sender |
| `ServerAnswers.SecondClientRefused` | aufg4/bft_server/main.cpp:139-144 | A SYN at a busy server changes nothing, and the one answer, sent to whoever sent it, makes a client at its start end with failure, for every upload |
| `ServerAnswers.StrangersGetNoAck` | aufg4/bft_server/main.cpp:94-108 | During a session a datagram from another IP address changes nothing and is never acknowledged, except an ABR |
| `ServerAnswers.DamageIsRepeated` | aufg4/bft_server/main.cpp:77-81 | Damage in an open session changes nothing; the one answer is AGN with the bit the server waits for, and makes every waiting client, sending or aborting, repeat what it sent |
| `ServerAnswers.OpenSessionTurn` | aufg4/bft_server/main.cpp:94-118 | By raw flag bits, for an open session and any sender: when a datagram is accepted, when the session closes, when the bit flips, and what is written to the file |
| `ServerAnswers.IdleTurn` | aufg4/bft_server/main.cpp:139-158 | By raw flag bits: an idle server opens a session exactly on a SYN, for its sender, with an empty file of that name, waiting for bit 1; anything else leaves it as it is |
| `ServerAnswers.CountsFromSyn` | aufg4/bft_server/main.cpp:110-118 | From the SYN on, as long as the session stays open, the duplicates counted are its regular datagrams minus those accepted, and the bytes counted are the file's length, modulo the widths of the counters |
| `ServerAnswers.Kinds` | aufg4/bft_base/bft_datagram.hpp:41-44 | By raw flag bits: what a SYN, an ABR, a FIN, a plain datagram and an acknowledgement are |
| `ServerModel.NonInterference` | aufg4/bft_server/main.cpp:77-118 | While the owner's own datagrams keep its session open, any interleaving with datagrams from other IP addresses leaves the final state (bit, files, byte and duplicate counts), the accepted datagrams and everything sent to the owner equal to those of the run without the others |
| `ServerModel.ForeignDatagram` | aufg4/bft_server/main.cpp:77-107 | A datagram from an IP address that does not own the session changes the server exactly when no session is open and it is a SYN or damaged; during a session it is never accepted and nothing goes to the owner |
| `ServerModel.RegularConserved` | aufg4/bft_server/main.cpp:110-118 | Over every run of an open session each regular datagram of the owner is one acceptance or one counted duplicate, never both: duplicates grow by regular datagrams minus acceptances, modulo 2^32 |
| `ServerModel.AbortLeavesNothing` | aufg4/bft_server/main.cpp:94-102 | The owner's ABR closes the session and leaves its file absent or empty if and only if the file was empty or its length is no multiple of 2^64; all other files stay |
| `ServerModel.RepeatedAbort` | aufg4/bft_server/main.cpp:94-102 | Any number of further ABRs leaves an idle server as it is, and each is acknowledged |
| `ServerModel.CrashesExactlyWhenIdle` | aufg4/bft_server/main.cpp:77-81 | The process dies if and only if a damaged datagram arrives with no session open, where the code uses the missing session |
| `ServerModel.AppendKeepsCount` | aufg4/bft_server/file_writer.cpp:38-42 | After an accepted datagram the byte counter still equals the file's length |
| `ServerProcess.Server.Handle` | aufg4/bft_server/main.cpp:72-119 | One turn of the receive loop on the heap objects makes the state, the replies and the acceptance that the server function gives, for every datagram and sender |
| `ServerProcess.Server.Run` | aufg4/bft_server/main.cpp:72-119 | The loop over any received datagrams ends in the state, replies and acceptances of the functional run |
| `ServerProcess.Server.HandleSYN` | aufg4/bft_server/main.cpp:139-158 | Refused exactly when a session is open, then nothing changes; otherwise a fresh session with an empty file replaces any file of that name, and no other file changes |
| `ServerProcess.Server.HandleValidDatagram` | aufg4/bft_server/main.cpp:160-180 | FIN closes, a plain datagram is appended, any other flags only flip the bit: the new state is that of the functional step |
| `ServerProcess.FileWriter.WriteBytes` | aufg4/bft_server/file_writer.cpp:26-43 | The byte loop appends exactly the data to its own file, counts it, and changes no other file |
| `ServerProcess.FileWriter.Abort` | aufg4/bft_server/file_writer.cpp:57-62 | Removes its file exactly when bytes were written, and no other |
| `ClientModel.JoinedIsWhole` | aufg4/bft_client/main.cpp:91-102 | The chunks read, joined, are the whole file, for every length including 0 and multiples of 504 |
| `ClientModel.Job.Chunk` | aufg4/bft_client/main.cpp:94-100 | Every chunk has 1 to 504 bytes, and all but the last have 504 |
| `ClientModel.SendsConserved` | aufg4/bft_client/main.cpp:149-184 | In every client run the datagrams sent are one per response or timeout, plus the one still waiting |
| `ClientModel.RetransmissionsAreTimeouts` | aufg4/bft_client/main.cpp:164-177 | The retransmission counter counts the timeouts, except the one that throws, modulo 2^32 |
| `ClientModel.TrafficConserved` | aufg4/bft_client/main.cpp:116-184 | In every run that ended without throwing, datagrams sent = responses received + retransmissions |
| `ClientModel.GivesUpAfterBudget` | aufg4/bft_client/main.cpp:166-175 | A budget of k >= 0 throws with the last event if and only if that event ends a row of exactly k + 1 unanswered sends, and no longer row can happen |
| `ClientModel.RetriesCountTimeouts` | aufg4/bft_client/main.cpp:149-170 | The retry counter is the number of timeouts in a row, and never exceeds the budget |
| `ClientModel.UnlimitedNeverGivesUp` | aufg4/bft_client/main.cpp:164-168 | With a negative budget no sequence of events makes the client give up |
| `ClientModel.ExitsExactly` | aufg4/bft_client/main.cpp:33-43 | Over every sequence of events the interrupted client exits if and only if its ABR is acknowledged or four sends in a row stay unanswered |
| `ClientModel.JudgeByFlags` | aufg4/bft_client/main.cpp:121-143 | By raw flag bits, for any response: a refusal is ABR without the sequence bit, acceptance is exactly the flags sent with ACK, all else, damage included, repeats |
| `ClientProcess.Client.SendAndReceiveResponse` | aufg4/bft_client/main.cpp:147-184 | The retransmission loop follows the client function through its events; a throw comes after exactly budget + 1 sends, and never for a negative budget |
| `ClientProcess.Client.SendDatagramAndWaitForACK` | aufg4/bft_client/main.cpp:116-145 | Returns only on the acknowledgement of the datagram, with the bit flipped and the position moved on by one; otherwise the run ends as the client function ends |
| `ClientProcess.Client.SendChunks` | aufg4/bft_client/main.cpp:91-102 | The read loop over the reused buffer sends the chunks of the file in order, none empty, none left out |
| `ClientProcess.Client.Read` | aufg4/bft_client/main.cpp:94-95 | Fills the front of the buffer with what is left of the file, at most a buffer, and leaves the rest of the buffer stale |
| `ClientProcess.Client.Upload` | aufg4/bft_client/main.cpp:88-104 | Over every script of events the whole upload sends what the client function sends and ends in its state |
| `ClientProcess.Client.SignalHandler` | aufg4/bft_client/main.cpp:27-44 | The handler's loop sends what the client function sends from the interrupted state, and ends only in its exit or with nothing left to happen; when that is, ClientModel.ExitsExactly says |
| `Flags.FlagOperators` | aufg4/bft_base/flags.cpp:3-15 | Union, intersection and difference of flag sets are the bit operators and clear_flag on 16-bit words |
| `Flags.FlagWords` | aufg4/bft_base/flags.hpp:11-19 | Flag sets and 16-bit words are in one-to-one correspondence |
| `Flags.FlagBits` | aufg4/bft_base/flags.hpp:11-19 | Each flag is the one bit of the 16-bit word that the source assigns to it |
| `Messages.AckAnswers` | aufg4/bft_base/bft_datagram.cpp:103-111 | The acknowledgement of a message answers exactly the messages whose flags are the original's without ACK, whatever their payload; it answers its own original if and only if that had no ACK |
| `Datagrams.WireRoundTrip` | aufg4/bft_base/bft_datagram.cpp:24-84 | A datagram built by a constructor, sent as its first size() bytes and received into a zeroed one, is identical and passes the check, although the checksum covers padding that never travels |
| `Datagrams.ReceiveOfSend` | aufg4/bft_base/bft_datagram.hpp:42-51 | Any datagram of valid size comes back identical if and only if the bytes behind its payload are zero |
| `Datagrams.ParseOfEncode` | aufg4/bft_base/bft_datagram.cpp:24-49 | Every constructed datagram passes its own check and gives back its flags and payload |
| `Datagrams.CorruptionDetected` | aufg4/bft_base/bft_datagram.cpp:11-16 | A valid datagram changed in the checksum field only, or in at most 32 consecutive covered bits only, never passes the check |
| `Datagrams.ViewOfImage` | aufg4/bft_base/bft_datagram.hpp:47-57 | The packed 512-byte image determines the datagram |
| `Datagrams.Layout` | aufg4/bft_base/bft_datagram.hpp:47-57 | Where each bit of each field lies among the 512 bytes: checksum, payload size with its low byte first, flags, payload |
| `Datagrams.ImageOfView` | aufg4/bft_base/bft_datagram.hpp:47-57 | Every 512-byte memory is the image of the datagram it holds, and the checksum covers its bytes 4 to 511 |
| `DatagramMemory.Construct` | aufg4/bft_base/bft_datagram.cpp:24-45 | The constructor leaves in memory the image of the message's datagram: flags with the sequence bit, zero padding, matching checksum |
| `DatagramMemory.CheckMemory` | aufg4/bft_base/bft_datagram.cpp:47-49 | The check on memory decides the integrity of the datagram it holds |
| `DatagramMemory.ReceiveInto` | aufg4/bft_base/bft_datagram.cpp:51-61 | Reception overwrites at most 512 bytes from the start and keeps the rest |
| `CrcEngine.ReflectBits` | aufg4/bft_base/lib/include/CRC.h:683-694 | The loop over the two variables reverses the low numBits bits and clears the others |
| `CrcEngine.ReflectInvolution` | aufg4/bft_base/lib/include/CRC.h:683-694 | Reflecting twice gives the value back if and only if the value fits in the reflected bits |
| `CrcEngine.FinalizeInverse` | aufg4/bft_base/lib/include/CRC.h:706-752 | UndoFinalize and Finalize are mutual inverses |
| `CrcEngine.ContinuedIsWhole` | aufg4/bft_base/lib/include/CRC.h:475-484 | Continuing over b from the CRC of a is the CRC of a followed by b, for all parameters and data |
| `CrcEngine.ReflectionDuality` | aufg4/bft_base/lib/include/CRC.h:781-832 | The reflected remainder is the reflection of the unreflected one over the bytes bit-reversed, from the reflected start |
| `CrcRegister.RemainderDual` | aufg4/bft_base/lib/include/CRC.h:781-832 | The mirror of the left-shifting register over any data is the right-shifting register over the mirrored bytes |
| `CrcRegister.LookupRight` | aufg4/bft_base/lib/include/CRC.h:886-901 | One table step is eight bit steps, right-shifting form |
| `CrcRegister.LookupLeft` | aufg4/bft_base/lib/include/CRC.h:903-912 | One table step is eight bit steps, left-shifting form |
| `CrcRegister.StepsLinear` | aufg4/bft_base/lib/include/CRC.h:789-801 | Any number of bit steps is linear over exclusive or |
| `CrcRegister.RemainderIsSerial` | aufg4/bft_base/lib/include/CRC.h:781-803 | The byte-wise register equals the textbook register that takes one message bit at a time |
| `CrcRegister.SerialDetectsBurst` | aufg4/bft_base/lib/include/CRC.h:781-803 | Two messages of equal length that differ only inside a window no longer than the register leave different remainders |
| `CrcEngine.CrcDetectsBurst` | aufg4/bft_base/lib/include/CRC.h:455-462 | Data that differ only inside as many consecutive message bits as the CRC is wide have different CRCs, reflected or not |
| `CrcEngine.CrcDetectsByteBurst` | aufg4/bft_base/lib/include/CRC.h:1926-1930 | Data that differ only inside as many consecutive bytes as the CRC has, four for CRC-32, have different CRCs |
| `CrcStandard.Crc32Polynomial` | aufg4/bft_base/lib/include/CRC.h:1914-1930 | The generator of CRC-32 by its exponents: 32, 26, 23, 22, 16, 12, 11, 10, 8, 7, 5, 4, 2, 1, 0 |
| `CrcStandard.CheckValue` | aufg4/bft_base/lib/include/CRC.h:1914-1930 | The CRC-32 of the characters 1 to 9 is 0xCBF43926, which fixes initial value, final XOR and both reflections |
| `CrcStandard.StepIsShift` | aufg4/bft_base/lib/include/CRC.h:789-801 | A step of the bit loop with CRC-32's polynomial is one shift of the 32-bit register with feedback at the listed taps |
| `CrcEngine.CalculateRemainder` | aufg4/bft_base/lib/include/CRC.h:765-832 | The nested loops compute the remainder of both branches |
| `CrcEngine.Table.InitTable` | aufg4/bft_base/lib/include/CRC.h:411-443 | The loop over the wrapping unsigned char fills all 256 entries, each with the remainder of its byte |
| `CrcEngine.Table.LookupRemainder` | aufg4/bft_base/lib/include/CRC.h:882-912 | The table loop computes the same remainder as the bit loops, for every data and start, in both branches |
| `CrcEngine.Table.Calculate` | aufg4/bft_base/lib/include/CRC.h:496-505 | The CRC by table is the CRC bit by bit |
| `CrcEngine.Table.CalculateMore` | aufg4/bft_base/lib/include/CRC.h:519-530 | A CRC continued by table is the CRC of everything so far |
| `CrcEngine.Calculate` | aufg4/bft_base/lib/include/CRC.h:455-462 | One-shot calculation gives the CRC |
| `CrcEngine.CalculateMore` | aufg4/bft_base/lib/include/CRC.h:475-484 | A CRC continued bit by bit is the CRC of everything so far |
| `Civil.ToDaysIsSerial` | aufg2_3_http/http_server/lib/include/date.hpp:2973-2987 | For every date a year can hold to_days is the day number; era, yoe, doy and doe are the intended quantities in the ranges the code notes, and no conversion loses information |
| `Civil.Conversions` | aufg2_3_http/http_server/lib/include/date.hpp:2979-2986 | Conversions to unsigned, int and short keep any value modulo the size of the type |
| `Civil.ToDaysOfFromDays` | aufg2_3_http/http_server/lib/include/date.hpp:3087-3103 | to_days(from_days(z)) = z for every day of the valid years, the date is ok(), all intermediates are in the noted ranges and the narrowing to short and unsigned char loses nothing |
| `CivilOrder.FromDaysOfToDays` | aufg2_3_http/http_server/lib/include/date.hpp:2973-3103 | from_days(to_days(d)) = d for every valid date |
| `CivilOrder.LibraryFromDaysOfToDays` | aufg2_3_http/http_server/lib/include/date.hpp:2973-3103 | The same of the library's own two formulas, with all their conversions |
| `CivilOrder.Epoch` | aufg2_3_http/http_server/lib/include/date.hpp:2973-3103 | Day 0 is January 1st, 1970, a Thursday, day -1 the day before, and day 789 the leap day of 1972, in both directions |
| `CivilOrder.LibraryIsExact` | aufg2_3_http/http_server/lib/include/date.hpp:1823-1920 | The library's conversions and weekday operators meet the exact description that the other calendar results rest on |
| `CivilOrder.OrderIsDayOrder` | aufg2_3_http/http_server/lib/include/date.hpp:3032-3039 | operator< on dates is the order of their day numbers, and two dates are equal exactly when those are |
| `CivilOrder.Succession` | aufg2_3_http/http_server/lib/include/date.hpp:2737-2748 | from_days(z + 1) is the calendar day after from_days(z) |
| `CivilOrder.NextDay` | aufg2_3_http/http_server/lib/include/date.hpp:2278-2284 | The next day by last-day-of-month and year_month + months{1} is valid and has the next day number |
| `CivilOrder.AddMonthsCounts` | aufg2_3_http/http_server/lib/include/date.hpp:2278-2284 | Adding any number of months, also negative, adds to the month count and keeps the month valid as long as the year is representable |
| `CivilOrder.AddMonthsComposes` | aufg2_3_http/http_server/lib/include/date.hpp:2278-2284 | Adding months in two parts is adding them at once |
| `CivilWeekday.WeekdayIsModulo` | aufg2_3_http/http_server/lib/include/date.hpp:1823-1827 | For every 32-bit day count, despite the unsigned wraparound, the weekday is (z + 4) mod 7 |
| `CivilWeekday.WeekdayArithmetic` | aufg2_3_http/http_server/lib/include/date.hpp:1905-1920 | Differences and sums of weekdays are modulo 7, and adding a difference leads back |
| `CivilWeeks.IndexedRoundTrip` | aufg2_3_http/http_server/lib/include/date.hpp:3276-3292 | For every day of the valid years the indexed weekday is ok(), has index 1 to 5 and converts back to the day |
| `CivilWeeks.IndexedRoundTripBack` | aufg2_3_http/http_server/lib/include/date.hpp:3262-3271 | Every indexed weekday that is ok() is the form of the day it converts to |
| `CivilWeeks.IsoWeekByThursday` | aufg2_3_http/http_server/lib/include/date.hpp:5346-5351 | %G and %V name the week by its Thursday: the year the Thursday lies in and its place, 1 to 53, among that year's Thursdays |
| `CivilWeeks.IsoRoundTrip` | aufg2_3_http/http_server/lib/include/date.hpp:7712-7716 | %V is 1 to 53 and the parser's formula maps %G, %V and weekday back to the day if and only if the day is not one of the first two of the valid years |
| `CivilWeeks.LibraryWeekDates` | aufg2_3_http/http_server/lib/include/date.hpp:5804-5818 | The round trip of the library's own week dates, also on the last three valid days, where the year wraps twice |
| `Registry.DeregisteringFindsItself` | aufg2_3_http/http_server/src/main.cpp:89-96 | In every interleaving a handler about to deregister finds its own entry, and no two entries are the same thread |
| `Registry.ListedExactly` | aufg2_3_http/http_server/src/main.cpp:135-138 | In every run, while handlers still remove themselves, the list holds exactly the started threads that still serve and those that ended by an exception, apart from the one about to be listed; one that has deregistered is not in it |
| `Registry.ListIsFrozen` | aufg2_3_http/http_server/src/main.cpp:69-82 | From the clearing of the flag in main's locked block on, no run of the other threads changes the list, so main reads it without the lock safely |
| `Registry.JoinedExactlyOnce` | aufg2_3_http/http_server/src/main.cpp:77-84 | When main has returned it has joined every remaining entry exactly once, in list order, each after its thread had ended |
| `Registry.NoDeadlock` | aufg2_3_http/http_server/src/main.cpp:66-85 | In every interleaving, as long as main has not returned, some step is possible: neither the mutex nor a join blocks all |
| `Registry.ShutdownEnds` | aufg2_3_http/http_server/src/main.cpp:66-85 | After a shutdown request every schedule is no longer than a bound computed from the state, and one that cannot go on has brought main to its return |
| `Registry.RunKeepsInv` | aufg2_3_http/http_server/src/main.cpp:39-58 | Every interleaving keeps mutual exclusion, distinct entries of started threads, no entry for a thread that has deregistered, and main's progress through its joins |
| `Registry.ThreadList.RemoveHandlerThread` | aufg2_3_http/http_server/src/main.cpp:89-96 | The search and erase removes and detaches exactly the entry with the id, and changes nothing if there is none |

## Left out

- Sockets, `errno`, signals as operating-system events, clocks and timeouts: a wait ends in a response or a timeout, chosen freely; an interrupt is one action.
- Errors other than a timeout from `sendto` and `recvfrom`, at which the programs exit, and received datagrams of zero bytes.
- The payload that `receive` logs before the check, whose length may exceed the buffer in a damaged datagram.
- Logging, the throughput figures and the flags as text.
- File names as paths: a file is identified by the payload of the SYN; directories, special names and failures to open are not modelled.
- File names of more than 504 bytes, which overrun the datagram in the constructor: `DatagramMemory.Construct` and `TransferResults.UploadTravels` require that the data fits.
- The server's own interrupt handler, which sends ABR to the session's owner and exits.
- Other senders inside the state machine of an upload.
- ServerModel.RegularConserved: counts the owner's datagrams in a session that stays open, because the counter is dropped with the session.
- CRC widths that differ from the width of the integer type, widths below 8, calculation over single bits, the branchless variant and the catalogue of other presets.
- Byte order: the packed fields are little-endian, as on the machines the programs are built for.
- Registry.NoDeadlock: a handler's request processing is one step that ends, normally or by an exception, because its network I/O is not modelled.
- Failures to start a thread, reuse of the identifier of a thread that has ended, and connections that fail to be accepted.
- CivilOrder.AddMonthsCounts: only while the resulting year is representable; beyond that `short` wraps.
- The other formats, parsers, durations, locales and streams of date.hpp.
- HTTP requests and responses, the option parsers, the experiments and the network topology.
