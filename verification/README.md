# MessageU: a verified model

MessageU is a store-and-forward messenger. C++ clients register with a Python
server, fetch each other's RSA public keys, send each other AES keys and then
encrypted texts and files; the server queues everything in SQL tables until the
addressee polls. This project models the server, the client and the bytes between
them in Dafny and proves what they promise. `dafny verify dfyconfig.toml` checks
all of it.

## How the model is laid out

The parts that change state step by step are classes and methods with loops, each
proved against a specification function; the laws are lemmas about those functions
and about runs of transition systems.

| modules | what they hold |
|---|---|
| `Wrappers`, `Bytes`, `Utf8`, `Tables` | options and exceptions, octets and little-endian words, which characters are text, rows in primary-key order |
| `MessageIds` | `IdSync`, the paged lazy allocator of message ids, updated in place |
| `ClientIds`, `Registry` | the little-endian hex id counter, "insert or replace", the accept loop's registry and its restarts |
| `HexColumn` | the hex text columns, the Python and the C++ decoder |
| `Requests`, `Responses`, `Framing` | request packets and the parsing wrapper, response records and the client's offset walk, the end-of-packet marker |
| `MeInfo` | `split`, `join`, `string_is_hex` and the `me.info` file |
| `Database`, `Session`, `AcceptLoop`, `ServerTheorems` | the SQL layer, one client's session thread, the accept loop, and what both do with the packets clients send |
| `Mailbox`, `MailboxProofs`, `OrderProofs`, `LossProofs`, `MailboxTheorems`, `MailboxRuns`, `MailboxOrder` | all sessions interleaved at SQL-statement granularity: allocate, insert, read rows, delete row by row, reply, die; what every step keeps, what exactly is lost, and when exactly polls may overlap |
| `Terms`, `Client`, `Protocol`, `ProtocolProofs`, `ProtocolTheorems`, `ProtocolProgress` | symbolic keys and ciphertexts, the client, and any number of clients over the mailbox |
| `Refinement`, `EndToEnd` | how the session code relates to the mailbox, and a message's bytes from the sender's packet to the recipient's walk |

Main results:

- Exactly once: in every run in which no poll starts while another for its recipient
  still has a row to place, an accepted message is pending or placed, once, and sent at
  most once; and that condition is exact (`MailboxTheorems.ExactlyOnce`,
  `OverlapExactly`).
- Order: replies keep each sender's order in every run in which no poll starts beside one
  it could overtake; and that condition is exact (`MailboxTheorems.ReplyFifo`,
  `MailboxOrder.OrderExactly`).
- Loss: in every such run an accepted message is in exactly one place: the table, a reply
  under construction, the replies sent, or lost; and which step loses it is exact
  (`MailboxTheorems.WhereItIs`, `LossProofs.LostExactly`).
- One session's messages get strictly increasing ids over a whole run
  (`MailboxTheorems.SessionIdsAscend`), however polls overlap.
- In every run, what arrives decrypts to what was typed, in sending order, once; once its
  addressee has read its replies, an accepted message has been printed if and only if it
  neither waits, nor is carried by a poll, nor was lost (`ProtocolTheorems`).
- In every state a run reaches, two idle sessions can deliver a message, with all the
  mail that waits for its addressee; from the start two clients can exchange a key and
  a text or a file (`ProtocolProgress`). So the theorems about all runs are about runs that
  deliver.
- Registration never replaces a client, through any restarts that restore the newest
  id, and the exact client counts at which an index-ordered restart does not
  (`Registry`); on the wire, the key a client registers is the key served for its id
  whatever the accept loop is sent later, short of a packet that overruns a struct
  (`AcceptLoop`).
- A session answers every request once, in order, with the right code, version and
  payload, interleaved with the statements of other sessions, and ends exactly when the
  peer is gone or a request cannot be answered, and which requests those are is exact
  (`Session.ServerSession.Serve`, `ServerTheorems.SessionAnswersPackets`,
  `RegisteredRequestFails`).
- A registered client can come back with any request; the accept loop's decision is exact
  for every packet, down to the bytes of a rejection (`ServerTheorems`).
- A session does to the byte table, statement by statement, what the mailbox model does,
  sender, type and content, whatever the bytes stand for and whatever comes in between
  (`Refinement`).
- Round trips for requests, message batches, client lists, hex columns, framing and
  `me.info`, each with its exact condition.

## Where the code and its intent differ

The model follows the code; these are the properties that fail as intended, each
with the condition under which they hold.

- The sync of message ids looks the whole id up in a page of low halves, so it works
  exactly when every stored id is below 0xffff or past the last page
  (`MessageIds.SyncIsComplement`). The allocator does hand out ids it cannot digest: all
  after the first 65535 (`MessageIds.UnsyncableIsGiven`). They also overflow the 32-bit
  id field of both replies that carry one.
- When every page is exhausted, allocation raises IndexError; the "no ids left" answer
  is never given (`MessageIds.AllocationSequence`).
- Two sessions' allocators do not know of each other: a message is refused, and its
  session ends, exactly when another session's row waits under the allocator's least
  free id, and two sessions opened over the same table start with the same id
  (`MailboxTheorems.RefusedIffTaken`, `TwinSessionsCollide`).
- A poll may start without risk of placing a message twice exactly when no other poll
  for the recipient has a row to place whose id fits 32 bits
  (`MailboxTheorems.OverlapExactly`); a run that breaks this exists
  (`MailboxRuns.OverlapIsReachable`).
- Order needs more. Given that, a poll may start without risk to the order of replies
  exactly when it could not finish, because an id that waits does not fit 32 bits, or no
  poll for the recipient that can finish carries a message of a session from which another
  message waits (`MailboxOrder.OrderExactly`); a run that breaks this exists
  (`MailboxRuns.RepliesCanInvert`).
- A poll deletes each row before the reply is sent (server/MassageUServer.py:157, :179). A
  message is lost exactly when the session that carries it dies before replying, or meets
  an id that does not fit 32 bits (`LossProofs.LostExactly`); a run that loses one exists
  (`MailboxRuns.MessageCanBeLost`), and what is lost is never sent
  (`MailboxTheorems.LostForever`).
- Client ids are little-endian, so a restart whose id scan follows the index on the id
  column restores the newest id exactly when all hex digits of the client count below
  its top digit are f: always up to 15 clients, not at 16. Otherwise, and only then, the
  next registration replaces an existing client (`Registry.IndexOrderReplaces`), whose id
  then belongs to the new name and key (`Database.IndexOrderTakesOver`), and every
  such count is reached by a run (`Registry.UnsafeCountReplaces`).
- A public key is requested for the first 32 characters typed and cached under all of
  them, so one requested with extra characters lies under a key that is no client's id
  (`ProtocolTheorems.KeyAgreement`).
- When the wrapper throws, a session answers its previous request again, or with the
  error code when that was its registration (`Session.ReplyCodes`); in the accept loop
  the exception is caught by nobody.
- A registration or public-key packet longer than its struct is written past it
  (`Requests.WrapperOverruns` says exactly which); nothing is claimed after that.
- A key request for an id that is not registered ends the session with IndexError,
  while one whose id does not decode as text is answered with the error code
  (`Session.ServerSession.AnswerPublicKey`).
- Names and ids become text one octet at a time, so a registration under a name with an
  accented letter, good UTF-8 as it is, ends the accept loop, as does any other packet
  whose sender's id is not text (`Utf8.AccentIsNotText`, `ServerTheorems.AccentedNameEnds`,
  `RequestIsDecided`). The ids the server itself gives are text
  (`ServerTheorems.RegisteredIsText`).
- A client name is shown up to its first NUL, and one whose first 255 characters hold
  none runs on into the next records (`Responses.ListRoundTrip`).
- `split` steps over one character whatever the delimiter's length, so splitting and
  joining restores a text exactly when the delimiter is one character or absent
  (`MeInfo.RejoinsIff`).
- A key that does not end with a newline loses what follows its last newline in
  `me.info` (`MeInfo.FileRoundTrip`).
- The client's size check measures a reply correctly exactly when the marker does not
  occur inside it (`Framing.LengthIsBody`).

## Model

| member | source | states |
|---|---|---|
| MessageIds.IdSync.CreateFreeMessageIdsPage | server/utils.py:17-24 | creates an uncreated page in range and nothing else; refuses a page past the last |
| MessageIds.IdSync.SyncFreeMessageIds | server/utils.py:26-30 | in-place removal of stored ids computes Sync; raises ValueError exactly when Sync does |
| MessageIds.IdSync.AllocateMessageId | server/utils.py:32-42 | in-place page search computes Allocate, leaves other pages alone, raises past the last page and never answers "none left" |
| MessageIds.IdHalves | server/utils.py:39 | page and low half decode back from the id they were or-ed into |
| MessageIds.AllocateTakesLeast | server/utils.py:32-42 | the lazy pages refine a set of free ids: allocation takes the least, removes exactly it, and fails only when none is free |
| MessageIds.AllocationSequence | server/utils.py:32-42 | from an empty table the k-th allocation gives page k / 65535 and low half k % 65535, for every k, and then IndexError |
| MessageIds.NthIdAscends | server/utils.py:37-39 | the ids of that sequence strictly increase and decode to page and place |
| MessageIds.SyncOneRemoves | server/utils.py:28-30 | one stored id is digested if and only if it is below 0xffff or past the last page, and then just it stops being free |
| MessageIds.UnsyncableIsGiven | server/utils.py:26-39 | of the ids an allocator gives from an empty table, a later sync can digest exactly the first 65535 |
| MessageIds.SyncIsComplement | server/utils.py:26-30 | sync succeeds if and only if every stored id is digestible, and then the free ids are exactly those not stored |
| MessageIds.SyncNewSession | server/utils.py:11-15 | the same for a new session's allocator over any table |
| MessageIds.SoleInserterNeverCollides | server/utils.py:139-144 | inserts of one synced allocator never violate the primary key, whatever is deleted in between and by whom |
| ClientIds.IdAdd1 | protocol/protocol_boost_dll/dllmain.cpp:74-93 | the carry loop over the digit array computes Add1 |
| ClientIds.ZeroIdIsZero | protocol/protocol_boost_dll/dllmain.cpp:66-72 | the zero id denotes 0 |
| ClientIds.Add1IsSuccessor | protocol/protocol_boost_dll/dllmain.cpp:74-93 | adding one stays in the alphabet and is the successor modulo 16^n of the little-endian value |
| ClientIds.IterateFromZero | protocol/protocol_boost_dll/dllmain.cpp:66-93 | k steps from the zero id denote k for every k below 16^n, so nothing repeats |
| ClientIds.CounterWraps | protocol/protocol_boost_dll/dllmain.cpp:74-93 | the step after the last returns to the zero id |
| ClientIds.IteratePeriod | protocol/protocol_boost_dll/dllmain.cpp:74-93 | step k denotes k modulo 16^n however long the counter runs |
| Registry.StripTrims | server/MassageUServer.py:106 | stripping takes NULs off both ends of a name and nothing else |
| Registry.NextIdFresh | server/MassageUServer.py:231-236 | the next id is taken if and only if 16^32 clients are registered |
| Registry.RegisterKeeps | server/MassageUServer.py:226-237 | a registration appends one row under the next id or, for a taken name, changes nothing; no earlier row changes |
| Registry.RunKeeps | server/MassageUServer.py:187-237 | over every run of registrations and safe restarts, ids and names are pairwise distinct and no registered row ever changes |
| Registry.LastAmongSmaller | server/utils.py:135-137 | a number's little-endian digits come last among all smaller ones if and only if every digit below its top one is f |
| Registry.RowOrderRestores | server/utils.py:135-137 | a scan in insertion order restores the newest id |
| Registry.IndexOrderRestores | server/utils.py:135-137 | a scan in index order restores the newest id if and only if the client count has only f below its top digit |
| Registry.IndexOrderNextId | server/MassageUServer.py:196-204 | after an index-order restart the next registration's id is already taken if and only if the count is not such |
| Registry.IndexOrderReplaces | server/MassageUServer.py:226-237 | after an index-order restart, registering a new name deletes an existing client's row if and only if the count is not such |
| Registry.UnsafeCountReplaces | server/MassageUServer.py:196-237 | for every such count below 16^32 there is a run of registrations to it, and a client that one restart and one registration then delete |
| Database.InsertedIsFound | server/utils.py:101-129 | after "insert or replace" the id finds the new row and every other id what it found before |
| Database.IndexOrderTakesOver | server/MassageUServer.py:196-237 | after an index-order restart at an unsafe count, the id of an existing client is found under the new client's name and key |
| Registry.SmallCounts | server/MassageUServer.py:196-204 | every count up to 15 is safe, 16 is not |
| HexColumn.DecodeInvertsEncode | server/MassageUServer.py:153-165 | the pairwise decoding of a content column inverts the two-digit encoder on every byte sequence |
| HexColumn.DecodesIffDigits | server/MassageUServer.py:154 | a column decodes if and only if it is pairs of hex digits |
| HexColumn.DecodesPairs | server/MassageUServer.py:154 | each pair of a column that decodes gives its byte |
| HexColumn.PythonReadsDigits | server/MassageUServer.py:154 | the digits read are those written and the capital letters, with their values |
| HexColumn.NibbleInvertsDigit | protocol/protocol_boost_dll/dllmain.cpp:229-234 | the unsigned char arithmetic on two digits of a byte gives the byte back |
| HexColumn.DecodePublicKey | protocol/protocol_boost_dll/dllmain.cpp:224-239 | the array loop decodes 160 pairs, or raises exactly when there are fewer characters |
| HexColumn.KeyRoundTrip | protocol/protocol_boost_dll/dllmain.cpp:224-239 | the C++ decoder inverts the Python encoder on every 160-byte key |
| Requests.CopyBytes | protocol/protocol_boost_dll/dllmain.cpp:105-107 | the byte loop overwrites a struct's first bytes, or raises, or leaves it |
| Requests.ParseRequest | protocol/protocol_boost_dll/dllmain.cpp:103-143 | the wrapper's constructor, loop by loop, computes Parse |
| Requests.RequestRoundTrip | client/client/MessageUClient.cpp:387-397 | every request of the five kinds is accepted and read back with its sender, version, code, recipient and content, whatever the padding, the pointer and the wrapper's memory |
| Requests.ShortPayloadIsTaken | protocol/protocol_boost_dll/dllmain.cpp:113-124 | a registration or key payload shorter than its struct is taken, and the rest of the struct is what was in memory |
| Requests.AcceptedLength | protocol/protocol_boost_dll/dllmain.cpp:108-110 | a bad length is reported if and only if it differs modulo 2^32 from header plus payload_size, which below 2^32 bytes means if and only if it differs |
| Requests.WrapperThrows | protocol/protocol_boost_dll/dllmain.cpp:103-143 | exactly which packets below 2^32 bytes make the wrapper throw |
| Requests.WrapperOverruns | protocol/protocol_boost_dll/dllmain.cpp:113-124 | exactly which packets below 2^32 bytes are written past their struct |
| Responses.HeaderReadsBack | client/client/MessageUClient.cpp:64-74 | version, code and size of a response header are read back at the client's offsets |
| Responses.IdLiesAt | server/MassageUServer.py:149-156 | sender and message id of every record are read back at its offset in the batch |
| Responses.WalkBatch | client/client/MessageUClient.cpp:288-333 | the 32-bit offset loop computes Walk and ends exactly at payload_size |
| Responses.BatchGrows | server/MassageUServer.py:147-157 | appending a record to the payload appends it to the batch |
| Responses.BatchRoundTrip | client/client/MessageUClient.cpp:288-333 | the client's walk over the server's batch gives the same senders, types and contents in order |
| Responses.RecvClientsListResp | client/client/MessageUClient.cpp:152-169 | as many records are shown as fit, each read at its own offset |
| Responses.ListRoundTrip | client/client/MessageUClient.cpp:152-169 | the client recovers every id and shows a name up to its first NUL, whatever follows the terminator; a name without one in 255 bytes is read on into the later records, so a name of at most 255 bytes is shown as it is if and only if it is shorter and has no NUL |
| Framing.Connection.GetMsg | client/client/Client.cpp:41-53 | the length kept is the position of the first marker; without one it is -1 |
| Framing.NoStraddling | client/client/Client.cpp:45 | no match straddles the end of the body |
| Framing.LengthIsBody | client/client/Client.cpp:41-48 | the computed length is the body's if and only if the marker does not occur inside it, and is never longer |
| Framing.SizeCheckPasses | client/client/MessageUClient.cpp:64-74 | the check of buf_len against the header passes if and only if the marker is not inside header and payload |
| MeInfo.SplitText | client/client/Utils/Utils.cpp:55-72 | the loop that shrinks its argument computes Split and leaves the last piece in it |
| MeInfo.JoinPieces | client/client/Utils/Utils.cpp:74-80 | the loop computes Join |
| MeInfo.RejoinsIff | client/client/Utils/Utils.cpp:55-80 | joining the pieces restores the text and one delimiter if and only if the delimiter is one character or absent |
| MeInfo.PiecesAreFree | client/client/Utils/Utils.cpp:55-72 | with one character there is one piece more than delimiters and no piece contains one |
| MeInfo.StringIsHex | client/client/Utils/Utils.cpp:34-45 | true if and only if every character is a hex digit |
| MeInfo.MeInfoFile.SetID | client/client/Utils/MeInfoFileRWIF.cpp:18-25 | takes exactly 32 hex digits and otherwise leaves the id |
| MeInfo.MeInfoFile.SetName | client/client/Utils/MeInfoFileRWIF.cpp:27-35 | takes a name of at most 255 characters, padded with NUL |
| MeInfo.MeInfoFile.ParseData | client/client/Utils/MeInfoFileRWIF.cpp:56-75 | sets the fields as Parse says, including the new name when the id is bad |
| MeInfo.MeInfoFile.WriteData | client/client/Utils/MeInfoFileRWIF.cpp:77-85 | writes the three lines and reads them back |
| MeInfo.AllButLast | client/client/Utils/MeInfoFileRWIF.cpp:66-70 | rejoining all lines but the last gives the text up to its last newline |
| MeInfo.ThreeLines | client/client/Utils/MeInfoFileRWIF.cpp:18-75 | of a file of at least three lines, which names and ids are taken, what stays when they are not, and that the key is what follows up to the last newline |
| MeInfo.FewLines | client/client/Utils/MeInfoFileRWIF.cpp:49-63 | a file of one or two lines fails and changes nothing |
| MeInfo.FileRoundTrip | client/client/Utils/MeInfoFileRWIF.cpp:56-85 | write then read returns padded name, id and key if and only if the name has no newline and the key is empty or ends with one, whatever newline-free junk follows |
| Database.FindClient | server/utils.py:128-129 | a row is found if and only if the id is registered |
| Database.Sql.AddMessage | server/utils.py:139-144 | allocates, then inserts under the primary key; a duplicate raises and changes no row |
| Database.Sql.GetMessages | server/utils.py:146-148 | exactly the rows for a client, in primary-key order |
| Database.Connect | server/MassageUServer.py:45 | opening a session raises ValueError if and only if some stored id cannot be synced; otherwise the new allocator's free ids are exactly those not stored |
| Session.ServerSession.Recv | server/MassageUServer.py:65-102 | which request is in force after a delivery, and whether it is answered or bad; a throw leaves the previous one in force |
| Session.ListClients | server/MassageUServer.py:121-127 | the loop builds a list of every other client, once each |
| Session.ServerSession.AnswerClientList | server/MassageUServer.py:118-128 | the payload lists every client but the requester |
| Session.ServerSession.AnswerPublicKey | server/MassageUServer.py:129-143 | the key stored for the id; which ids raise and which are bad |
| Session.ServerSession.AnswerMessages | server/MassageUServer.py:144-158 | with other sessions' statements in between, the payload holds the rows as read and each placed row is deleted once, in order, also when a later one raises |
| Session.UndisturbedPoll | server/MassageUServer.py:144-158 | with nothing in between, exactly the placed rows are gone |
| Session.ServerSession.AnswerSendMessage | server/MassageUServer.py:159-171 | the row stored, the id in the reply, and which sends raise with the row in or out |
| Session.ServerSession.Answer | server/MassageUServer.py:111-173 | raises if and only if the request fails on the tables it finds; otherwise each code gets its own code plus 1000, version and payload, or the request is bad; only polls and sends touch the message table, only sends the allocator |
| Session.UndeliverableStops | server/MassageUServer.py:148-157 | a poll stops short if and only if a row that waits for the client cannot be put in a reply |
| Session.ServerSession.Send | server/MassageUServer.py:175-180 | the header's payload_size is the payload's length; a longer payload raises |
| Session.ServerSession.Serve | server/MassageUServer.py:44-57 | over any deliveries and any statements of other sessions in between, replies match requests one to one and in order, each with the code, version and payload its request calls for; the session ends quietly exactly at the first empty delivery with all it took answered, and raises exactly when the request in force fails, its payload is 2^32 bytes or more, or a delivery overruns a struct |
| Session.ReceivesWithinThree | server/MassageUServer.py:44-57 | from any state the machine receives again within three turns |
| Session.ReplyCodes | server/MassageUServer.py:74-93 | a parsed delivery is answered by its own code plus 1000 or by 9000; one on which the wrapper throws, as the request before it, or by 9000 after a registration |
| Session.PollReadsBack | server/MassageUServer.py:144-158 | the client's walk over a poll's payload gives the sender, type and decoded content of exactly the placed rows, in id order |
| Session.StoredContentReadsBack | server/MassageUServer.py:153-165 | a stored row is deliverable if and only if its id fits 32 bits, and then as it was sent |
| Session.ReplyReadsBack | server/MassageUServer.py:175-180 | the bytes of a reply give back its version, code, size and payload |
| Session.PollCarriesIds | server/MassageUServer.py:149-156 | the record of each placed row carries the row's id |
| Session.ReplyIsMeasured | server/MassageUServer.py:175-180 | the client measures a framed reply correctly if and only if the marker is not inside it |
| Session.ListsEveryOther | server/MassageUServer.py:121-123 | the listed ids are exactly the registered ids other than the requester's |
| Session.ClientListReadsBack | client/client/MessageUClient.cpp:152-169 | the client shows each other client's id and its stored name up to the first NUL, or run on into the later records when the first 255 bytes hold none |
| AcceptLoop.MessageUServer.constructor | server/MassageUServer.py:187-194 | a server starts in the state a restart restores |
| AcceptLoop.MessageUServer.UpdateLastClientId | server/MassageUServer.py:196-201 | the last id of the scan, or the zero id |
| AcceptLoop.MessageUServer.Recv | server/MassageUServer.py:212-249 | registers, starts a session, rejects or ends exactly as Accept says; only a rejection is replied to |
| AcceptLoop.RunSession | server/MassageUServer.py:44-46 | a started session ends unanswered when its allocator cannot sync, and is otherwise served as Serve says, with an allocator whose free ids are those not stored |
| AcceptLoop.StartedIsServable | server/MassageUServer.py:226-244 | every session that is started meets what the session machine demands of its request and belongs to a registered id |
| ServerTheorems.RequestIsDecided | server/MassageUServer.py:238-247 | a packet other than a registration starts a session for its sender, holding its request, if and only if the sender is registered; it is rejected if and only if the sender is a text id that is not, and ends the accept loop if and only if the id is not text; the registry is unchanged |
| ServerTheorems.RegisteredClientReturns | server/MassageUServer.py:238-244 | a registered client is given a session with any of the four requests |
| ServerTheorems.RegistrationIsDecided | server/MassageUServer.py:226-237 | a registration starts a session under the next id, is rejected or ends the loop if and only if its stripped name is new, is taken or is not text |
| ServerTheorems.AccentedNameEnds | server/MassageUServer.py:227 | a registration under a well-formed UTF-8 name with a two-octet character ends the accept loop |
| ServerTheorems.MalformedIsDecided | server/MassageUServer.py:214-225 | what comes of no bytes, of fewer than a header, of a wrong length and of an unknown code |
| ServerTheorems.RejectionReadsBack | server/MassageUServer.py:190-193 | a rejection's bytes carry version 2, code 9000 and size 0 |
| ServerTheorems.RegisteredRequestFails | server/MassageUServer.py:104-173 | for registered clients, a client list never fails, a poll fails if and only if a waiting row is undeliverable, a send to a registered client if and only if the least free id is taken, too large or missing, and a key request if and only if the key is too short |
| ServerTheorems.SessionAnswersPackets | server/MassageUServer.py:44-180 | a session sent packets answers all of them, each reply's bytes carrying its request's code and the version of the last key request, or stops at one that cannot be answered, having answered all before |
| ServerTheorems.RegisteredIsText | protocol/protocol_boost_dll/dllmain.cpp:54-58 | every id of a registered client is text |
| Utf8.TextDecodesOneByOne | protocol/protocol_boost_dll/dllmain.cpp:54-58 | characters can be appended one by one if and only if each of them is well-formed UTF-8 on its own |
| Utf8.AccentIsNotText | protocol/protocol_boost_dll/dllmain.cpp:54-58 | a string can be well-formed UTF-8 and still not be text |
| AcceptLoop.RegisteredIdsAreProper | server/MassageUServer.py:231-236 | registered ids are the 32 nonzero characters a session demands of its table |
| AcceptLoop.AcceptAllKeeps | server/MassageUServer.py:212-249 | whatever bytes the accept loop is sent, short of a packet that overruns a struct, ids and names stay distinct and no client's row changes |
| AcceptLoop.RegisteredKeyIsServed | server/MassageUServer.py:104-143 | from the packet of a registration to any later answer: the key packed is the key served for that id, whatever is delivered in between short of a packet that overruns a struct |
| EndToEnd.PacketIsStored | server/MassageUServer.py:162-165 | the row stored for a send packet holds its recipient, sender, type and hex content |
| EndToEnd.StoredIsPolled | server/MassageUServer.py:145-157 | a stored message is in the recipient's next poll as it was sent, and the poll deletes it |
| EndToEnd.SentIsPolled | server/MassageUServer.py:144-171 | a send that is answered goes in under the id in its reply and replaces nothing; after any inserts, and any deletes by polls for others, the recipient's next poll delivers its bytes |
| Refinement.SendRefines | server/MassageUServer.py:162-171 | allocate-and-insert does to table and allocator what the mailbox's two steps do, sender, recipient, type and content, and raises if and only if they leave the session dead |
| Refinement.PollRefines | server/MassageUServer.py:145-158 | undisturbed, a poll does to the table what reading, deleting row by row and replying do, and the client's walk is the mailbox's reply record by record: sender, type and content, whatever the bytes stand for |
| Refinement.StatementRefines | server/MassageUServer.py:145-157 | each deletion of a poll does to the table it finds what the mailbox's next deletion does, whatever other sessions did in between |
| Refinement.PollAmidRefines | server/MassageUServer.py:145-158 | with anything in between, when the statements of a poll have run the mailbox's poll has built the same reply, record by record, and has rows left if and only if the session's poll raised |
| MailboxProofs.CoreStepKeeps | server/MassageUServer.py:144-171 | every statement of every session keeps conservation, ids and placing order while no poll starts before another for its recipient has placed its rows |
| OrderProofs.StepKeeps | server/MassageUServer.py:144-180 | while no poll starts beside one it could overtake either, every statement also keeps the order of replies sent and of those under construction |
| LossProofs.LostExactly | server/MassageUServer.py:147-179 | a step loses a message if and only if the session that carries it dies in that step, or meets an id that does not fit its field |
| MailboxTheorems.ExactlyOnce | server/MassageUServer.py:144-171 | in every interleaving without such an overlap, an accepted message is pending under one id or placed once for its addressee, is sent at most once, and nothing else is |
| MailboxTheorems.WhereItIs | server/MassageUServer.py:144-180 | in every such run an accepted message is in exactly one of four places: waiting in the table, carried by a reply under construction, sent to its addressee, or lost |
| MailboxTheorems.LostForever | server/MassageUServer.py:144-180 | a lost message is never sent, whatever follows |
| MailboxTheorems.PlacedIsReplied | server/MassageUServer.py:145-180 | with one poll at a time, what has been sent to a client, and then the reply being built, is what was placed less what was lost, in the same order |
| MailboxTheorems.SessionIdsAscend | server/utils.py:32-39 | over any steps at all the messages one session sends get strictly increasing ids, also when earlier ones have been polled, and wait under no others |
| MailboxTheorems.SessionFifo | server/MassageUServer.py:144-158 | one session's messages to one client are placed in sending order, none overtaking another |
| MailboxTheorems.ReplyFifo | server/utils.py:146-148 | in every run in which no poll starts beside one it could overtake, a sent message follows every earlier one of its session in the replies, unless that one is lost or in a reply that will meet an id that does not fit 32 bits; nothing is repeated |
| MailboxTheorems.DoomedForever | server/MassageUServer.py:144-180 | what is carried by a reply that meets such an id is never sent |
| MailboxOrder.OrderExactly | server/MassageUServer.py:145-180 | when a poll starts, every orderly continuation sends the recipient's messages in sending order if and only if the poll cannot finish or no poll that can finish carries a message of a session from which more waits |
| MailboxTheorems.OverlapExactly | server/MassageUServer.py:145-157 | when a poll starts, every continuation places each message at most once if and only if no other poll for the recipient has a row to place |
| MailboxTheorems.OverlappingPollsDuplicate | server/MassageUServer.py:145-157 | a poll started while another has a row to place can go on to place that row twice |
| MailboxRuns.OverlapIsReachable | server/MassageUServer.py:145-157 | a run from the start reaches such an overlap and places a message twice |
| MailboxRuns.RepliesCanInvert | server/MassageUServer.py:145-180 | a run from the start in which a poll overlaps one whose reply is placed but unsent, and the replies come in the wrong order |
| MailboxRuns.MessageCanBeLost | server/MassageUServer.py:157-179 | a run from the start in which a session dies between deleting a row and sending its reply, and the message is sent in no continuation |
| MailboxTheorems.RefusedIffTaken | server/utils.py:139-144 | a message is refused if and only if a row waits under this allocator's least free id; that row is another session's, and nothing else changes |
| MailboxTheorems.TwinSessionsCollide | server/MassageUServer.py:45 | two sessions opened over one table collide on their first messages |
| Client.MessageUClient.SaveFriendPubKey | client/client/MessageUClient.cpp:198-203 | the first public key from a friend is kept |
| Client.MessageUClient.SaveFriendAesKey | client/client/MessageUClient.cpp:214-219 | the first AES key from a friend is kept |
| Client.MessageUClient.SendMsgClient | client/client/MessageUClient.cpp:339-385 | what is sent for each message type, or that nothing is |
| Client.MessageUClient.GetMsgsClient | client/client/MessageUClient.cpp:288-333 | the loop over received messages computes ReceiveAll; a key that does not decrypt ends the program |
| Client.SentIffKeyed | client/client/MessageUClient.cpp:339-385 | a message is sent if and only if the id is a whole one and the key its type needs is cached, and its content opens to what was typed, or to the sender's key, under that key only |
| Client.RunsOnIffKeysOpen | client/client/MessageUClient.cpp:288-333 | the program goes on if and only if every key that arrives opens |
| Client.EachIsShown | client/client/MessageUClient.cpp:288-333 | while it goes on, every message leaves one entry, in order, saying what it is and what it opens to; one that does not decrypt stops nothing |
| Client.CachedKeysStay | client/client/MessageUClient.cpp:198-219 | whatever arrives, a cached key never changes |
| ProtocolProofs.OutgoingIsWellKeyed | client/client/MessageUClient.cpp:339-385 | what a client sends is encrypted for its addressee |
| ProtocolProofs.StepKeeps | client/client/MessageUClient.cpp:198-385 | every step of every client and session keeps the protocol invariant |
| ProtocolTheorems.AcceptedOpensToTyped | client/client/MessageUClient.cpp:246-333 | in every run, every text or file accepted for a client opens under its own AES key to exactly what was typed |
| ProtocolTheorems.PrintedAsTyped | client/client/MessageUClient.cpp:276-333 | what a client has printed is, message by message, what its replies should print; nothing has ended it |
| ProtocolTheorems.AcceptedIsPrinted | client/client/MessageUClient.cpp:276-333 | once its addressee has read its replies, an accepted message has been printed as typed if and only if it is not in the table, not carried by a reply under construction and not lost |
| ProtocolTheorems.PrintedInOrder | client/client/MessageUClient.cpp:276-333 | messages are printed in sending order and none twice |
| ProtocolTheorems.MessagesConserved | server/MassageUServer.py:144-171 | an accepted message is pending or placed, never both |
| ProtocolTheorems.KeyAgreement | client/client/MessageUClient.cpp:198-244 | a public key is cached under what was typed and is the server's row for its first 32 characters, cached AES keys their owners', queued key messages the sender's AES key under the addressee's public key |
| ProtocolTheorems.RunGrows | client/client/MessageUClient.cpp:198-219 | no table row, cached key, typed text or printed line ever changes later |
| ProtocolProgress.CanDeliver | client/client/MessageUClient.cpp:276-408 | in every state a run reaches, whatever waits in the table, a client that has cached the key a type of message needs can send one to another whose session is idle, and it is polled and printed as typed, with all that waited for the addressee, and what waits for others is untouched |
| ProtocolProgress.ContentCanArrive | client/client/MessageUClient.cpp:230-408 | there is a run from the start in which two clients register, share a key and print a text or a file as typed, for every content and every two ids |
| ProtocolTheorems.RegistrationIsEnabled | server/MassageUServer.py:231-237 | the id the accept loop gives is one the protocol can register, and the two client tables go on agreeing |

## Left out

- Sockets, threads as objects, resolver and connection errors, printing: a delivery is one whole request and sessions are interleaved steps.
- The receive loop that stops after a second chunk (server/Server.py:40-43): requests are assumed to arrive whole.
- SQLite itself, its column affinity and the table-creation statements: tables are maps and sequences with a primary key, and rows of a query come back in integer primary-key order.
- AES, RSA and Base64: keys and ciphertexts are symbolic terms in which a box opens under its own key only. An AES decryption under a wrong key that happens to yield text is not captured, nor is an empty ciphertext.
- The command line, `server.info`, IP validation, `isNumber`, `hexify` and `validate` (it compares an unsigned value with 0 and cannot fail).
- The naming of saved files (client/client/MessageUClient.cpp:317-318), and reading and writing of files other than `me.info`.
- Last-seen times: `check`, `disconnect_long_last_seen`, `update_last_seen`; the LastSeen column.
- `free_message_id`, which nothing calls.
- A client's restart: its AES key would change while caches keep the first one, so the protocol theorems speak of clients that are not restarted.
- Protocol.FetchKeyStep: does not model an id typed with fewer than 32 characters, which the client copies past the end of its string.
- Dishonest clients in `Protocol`: every client sends its own keys and its own id. `Session`, `AcceptLoop` and `Mailbox` take any bytes.
- Fetching a public key is one step in `Protocol`; its reply's bytes are in `Session` and `AcceptLoop`.
- Session.StatusFor: a code outside the enumeration is bad; what Boost makes of the enum value itself is not modelled.
- Requests.ParseRequest: a write past the end of a payload struct is undefined behaviour and gives the outcome Undefined, after which nothing is claimed.
- Responses.WalkBatch: a record that runs past the payload is undefined and gives None; the client's store of a pointer into each record is not modelled.
- The parsing of `int(_, 16)` accepts signs, spaces and underscores in a two-character pair; columns written by the server have none.
- Signed bit-fields of Win32 enums: codes and types are compared with small positive values only.
- Struct padding: the compiler's padding bytes are zero in cleared structs and arbitrary in the send-message struct, which the client does not clear.
- MeInfo.SplitText: requires a nonempty delimiter; with an empty one the source throws on the empty rest. Its only caller passes a newline.
- MeInfo.MeInfoFile.ParseData: what a text-mode read leaves after the file's text is a parameter, `junk`; closing the file is not modelled.
- The client's `checkCode` and its comparison of returned ids, which only decide whether an operation reports failure.
