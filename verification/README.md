# A verified model of an IRC daemon's protocol state

This project models the parts of the daemon in which state spreads or is rewritten: G-lines
flooding between servers, topics merging on a tree of servers, capability negotiation, the
operator state machine, the tables of names and accept lists, and the programs that print
something another program has to read. Each part is proved against an independent reading of
what it is for: a second reader, an invariant over all runs, or an exact condition. Run
`dafny verify dfyconfig.toml` to check it.

| files | what they model |
|---|---|
| `Masks`, `Gline` | masks and when they are the same; how a mask is read; the list of temporary G-lines on one server |
| `GlineNet`, `Flood`, `FloodOutcome`, `FloodRuns`, `FloodEnds`, `FloodCases`, `FloodOrder` | networks of servers and what each reads in a line; the flood over any such network with its invariant; what it leaves behind, what it can reach, when it ends, and networks that show each case |
| `ServerMap`, `MapShape` | the recursive printer of MAP over one shared buffer, a reader for its drawing, and what its signs mean |
| `Capab`, `CapPrint`, `CapSession`, `CapLaws` | the tokenizer with its binary search, the line-splitting printer, the state of one client's negotiation, and what a client can rely on |
| `Dlink`, `ClearChan` | the intrusive doubly linked lists on the heap, and the sweeps of CLEARCHAN over them |
| `Umodes`, `Opers` | the SVSMODE interpreter; services, operators and captured users |
| `Nicks` | the hash table of client names with its move-to-front search, and SVSNICK |
| `Spoof`, `SpoofLaws`, `SpoofReader` | the file that SPOOF appends to and DELSPOOF rewrites, and what the configuration reads in it |
| `Tburst`, `Tree`, `TopicFlood` | TBURST on one server, trees of servers, and TBURST on a tree |
| `Encap` | re-serialising a message, and the parser that reads it |
| `Accept` | ACCEPT lists of clients |
| `Text`, `Seqs`, `Options` | characters, names and sequences |

Code that updates state is written as methods over fields, arrays and heap lists, each proved
against a function or an invariant. What the daemon asks of code outside these files
(who is found under a name, whether a password matches, a random number, the time) is a
parameter, and whatever it answers is covered.

## How the model reads the code

- Flag words (user modes, capability words, member flags, privileges, SPOOF flags) are sets of
  distinct one-bit flags. A flag macro that stands for two bits is two flags.
- Strings are sequences of characters without a NUL. Names are compared with the table of
  `src/match.c`, and the build is the one with IPv6.
- Lookups that the code makes in data not modelled here are parameters, so that a theorem holds
  for each of their answers.
- Trees of servers are numbered so that each uplink, as seen from server 0, comes first; every
  finite tree can be numbered in this way.

## Where the code and its description disagree

- The IPv6 parser keeps one bit too many in the word in which a prefix ends
  (`Masks.KeepsOneBitMore`). A mask with that bit set does not name itself. As an entry it is never
  found or removed (`Gline.StrayEntryIsUnseen`), and placing it cannot be undone
  (`Gline.PlaceThenRemove`); as a mask to look for it still finds the entry without that bit
  (`Gline.StrayFindsCleared`). Each server that takes it places it again whenever it comes, so that
  its flood ends on some networks only: `FloodEnds.EndsUnlessEndless` says on which, and on a tree
  of servers of this program it does (`FloodCases.TreeFloodsEnd`).
- The first two sends of a GLINE exclude nobody, and use a form with user and host apart that this
  server's own parser misreads: it takes a user part with a star for a host, any other for a nick
  (`Gline.SplitFormIsMisread`). So a G-line can leave others that nobody asked for
  (`FloodOrder.StarTurnsUp`). The network of the flood has servers of both kinds. What such a
  network holds in the end is what chains of readings lead to, but the order of delivery can matter
  (`FloodOrder.MisreadingGetsInTheWay`).
- A mask with a prefix length after a slash is compared with gline_min_cidr, one that is written
  with a star is not, though both are read alike. Where servers differ in that limit, a server that
  has the first refuses the second as known and does not send it on (`FloodOrder.KnownIsNotSent`).
- `set_channel_topic()` leaves the time of a topic that is unset, and says that this is required
  for bursting topics properly. It makes an unset topic lose against older topics that arrive
  later: `TopicFlood.NewestTopicWins` gives the exact condition under which TBURST converges.
- SVSNOOP + and OPER change user modes without Count.invisi; the contracts of
  `Opers.Ircd.SvsNoop` and `Opers.Ircd.OperUp` say exactly when it stays right.
- SVSMODE reads every parameter from the third on as a mode string, also the one it then uses as
  a service stamp.
- CAP ACK has no effect. An answer about no capability lists all of them, a request that ends in
  a space is refused, and entries that must be acknowledged or are sticky are printed with marks
  that the tokenizer does not know (`CapSession.AckIsReadable`). The table is sorted by one order
  and searched by another; they differ on some names with brackets
  (`CapSession.SortAgreesWithSearch`).
- SPOOF accepts masks with a quotation mark, at which DELSPOOF stops reading. It does not find such
  a mask, and on a file with such a block it is exact for no mask that it finds
  (`SpoofLaws.ExactForOneMask`): it takes the block for another, rewrites it shorter, or, if the mark
  is in the user, measures a null string, which the model calls undefined. The same goes for a user
  value without @ that does not match.
- An unsetting of a topic that comes twice takes away an older topic that came in between
  (`Tburst.RepetitionChangesNothing`).
- An ENCAP of two parameters is sent on without marking the last, so that a subcommand with a
  space in it falls apart on the next server (`Encap.ParametersAreKept`).
- ACCEPT counts names that are on the list already against the limit (`Accept.AllAdded`).
- SVSNICK builds its retries from the untruncated nick, so that they are no different if it fills
  the buffer (`Nicks.LongNickCollides`).

## Model

| member | source | states |
|---|---|---|
| Text.IrcCmp | src/match.c:264-282 | answers 0 exactly for two names that are the same under the upper-case table |
| Text.CaseTablesAgree | src/match.c:303-371 | folding by the upper-case table (comparison) and by the lower-case table (hashing) identify the same characters |
| Text.SameNameIsEquivalence | src/match.c:264-282 | being the same name is reflexive, symmetric and transitive |
| Text.CharactersAre | src/match.c:372-480 | which characters are spaces, digits and parts of host names |
| Masks.KeepsOneBitMore | src/hostmask.c:66-159 | the word mask of the IPv6 parser keeps the prefix and one bit more, for every prefix length inside a word |
| Masks.SelfMatching | src/hostmask.c:257-272 | a mask names itself exactly if it has no stray bit behind its prefix |
| Masks.MatchingIsMeaning | src/hostmask.c:257-287 | a mask names exactly the entries without a stray bit that mean the same: the same users, on the same hosts, or on addresses of one family and prefix length of which both cover the same |
| Masks.StrayIsUnreachable | src/hostmask.c:257-272 | no mask names an entry with a stray bit |
| Masks.MatchingSymmetric | modules/m_gline.c:114-146 | a mask names another exactly if the other names it |
| Masks.MatchingTransitive | modules/m_gline.c:114-146 | naming is transitive, so that it is an equivalence on masks without stray bits |
| Gline.GlineServer.FindGline | modules/m_gline.c:114-146 | answers 1 exactly if some entry without a stray bit means the same as the mask |
| Gline.ShortPrefixIsRefused | modules/m_gline.c:160-172 | of the masks of addresses with a slash exactly those are refused whose prefix is shorter than the limit for their family |
| Gline.EachIsSent | modules/m_gline.c:182-211 | a server that knows GLINE gets the split form and the joined form, any other the old form twice, and the one that the mask came from one line less |
| Gline.GlineServer.MoGline | modules/m_gline.c:149-212 | a mask that is refused or already found changes nothing and is sent nowhere; any other is put in front of the list and goes out in the six sends, in order; the list stays free of entries that name older ones |
| Gline.GlineServer.RemoveGlineMatch | modules/m_gline.c:292-324 | takes out the first entry that is named, and says whether there was one |
| Masks.NamedByOne | modules/m_gline.c:114-146 | two entries that one mask names name each other, whether or not that mask has a stray bit |
| Gline.EntriesInequivalent | modules/m_gline.c:149-212 | in every valid list no entry names another, unless it is an older one with a stray bit |
| Gline.OneEntry | modules/m_gline.c:114-146 | in every valid list every mask names at most one entry |
| Gline.RemovedIsGone | modules/m_gline.c:292-324 | after a removal the mask is no longer found, whatever the mask |
| Gline.PlaceThenRemove | modules/m_gline.c:177-180 | placing a new mask and removing it restores the list exactly if the mask has no stray bit |
| Gline.StrayEntryIsUnseen | modules/m_gline.c:114-146 | with an entry that has a stray bit every search and every removal does what it does without it: it is never found and never removed |
| Gline.StrayFindsCleared | modules/m_gline.c:292-324 | a mask with a stray bit still finds and removes the entry without that bit |
| Gline.JoinedFormIsRead | src/s_conf.c:3301-3504 | the form user@host is read as user and host cut to 40 and 63 characters, an empty part as a star, unless the user holds a ! or too little is no wildcard; and as the mask itself exactly if it also fits |
| Gline.NumberIsNoMask | src/s_conf.c:3173-3211 | a number in front is taken for a time and the line refused |
| Gline.OneIsEnough | src/s_conf.c:3222-3268 | if the configuration asks for one character that is no wildcard or for none, one in either part is enough and needed |
| Gline.LookupFindsFirst | src/s_conf.c:3474-3500 | a nick is the nick of the first user that has it in any case of its letters |
| Gline.SplitFormIsMisread | src/s_conf.c:3301-3504 | of user and host apart only the first is looked at: one that starts with a star becomes the host of a mask for all users, any other is looked up as a nick |
| Gline.SplitFormIsNotRead | src/s_conf.c:3301-3504 | it is read as the mask it stands for exactly if the user is the nick of a user for whom it is made |
| Gline.StarIsMisread | src/s_conf.c:3433-3471 | GLINE *abcd h is read as *@*abcd, by an example |
| Gline.SendToServerLines | src/send.c:565-634 | a send puts a line on exactly the links that have the asked and lack the forbidden capabilities, but for the excluded one |
| Gline.CopiesLines | modules/m_gline.c:182-193 | each link with the GLN capability gets the split form, and the joined form unless it is the one the line came from |
| GlineNet.SplitReading | src/s_conf.c:3301-3504 | what a server of this program places on the split form: the star mask or the mask of the user of that nick, if parse_aline() lets it pass and the configuration does |
| GlineNet.ReadingIsReadable | src/s_conf.c:3301-3504 | whatever a server reads, it can send on and would take in the joined form; a misreading never has a stray bit |
| GlineNet.StarIsNotReadAgain | src/s_conf.c:3213-3260 | the mask made of a star is misread no further, since its user part has nothing but a wildcard |
| GlineNet.ClosureIsClosed | src/s_conf.c:3301-3504 | the masks that any readings can make of a finite set are the set, the masks of the users and one star mask for each: nothing else ever turns up |
| GlineNet.SplitReadAlike | src/s_conf.c:3301-3504 | masks that name each other are misread as masks that name each other |
| Flood.RunSatisfies | modules/m_gline.c:149-212 | on any graph of links, with servers of both kinds, any masks and any order of delivery, every reachable state is sound: no entry names an older one, each placement continues the trail of an earlier one by a reading, and every neighbour has heard what it reads of an entry, or the line is on its way, or the entry came from it |
| FloodOutcome.NothingIsMadeUp | modules/m_gline.c:149-212 | in every run, whatever a server holds was introduced or came by a chain of readings from an introduction, and no mask names two entries |
| FloodRuns.ChainRun | modules/m_gline.c:149-212 | every such chain is followed by a run with one introduction and one delivery for each of its places |
| FloodRuns.FoundInSomeRun | modules/m_gline.c:149-212 | an entry named by a mask can turn up at a server exactly if such a chain leads there |
| FloodOutcome.FloodConverges | modules/m_gline.c:149-212 | once nothing is in flight, a server holds an entry named by a mask exactly if such a chain leads there, whatever the order of delivery, for any masks that hold the introduced ones and what is read of them, provided that of two that name each other a neighbour of a server that takes both takes both or none, and that misreadings come back to where they came from |
| FloodOutcome.OneMaskReachesAll | modules/m_gline.c:149-212 | on any graph of links a mask that all servers take is in the end held exactly once by every server that links lead to from where it was introduced, whatever other masks are introduced, unless another is read as one that it names |
| FloodOutcome.OneMaskAlone | modules/m_gline.c:149-212 | if no server reads the mask as another and only it is introduced, every such server ends up with a list of it alone |
| FloodOutcome.UniformIsEchoed | modules/m_gline.c:182-193 | misreadings come back if all servers read alike |
| FloodOutcome.UnmistakableIsEchoed | src/s_conf.c:3433-3504 | and if no user part is a nick or starts with a star |
| FloodOrder.MisreadingGetsInTheWay | modules/m_gline.c:172-193 | otherwise the outcome can depend on the order: a server that has misread a line refuses its own G-line for the same mask as known and does not send it on |
| FloodOrder.PairIsInTheWay | src/s_conf.c:3301-3504 | so it is with two servers of this program, one of which takes shorter prefixes |
| FloodOrder.KnownIsNotSent | modules/m_gline.c:172-193 | and without any misreading: of two masks that name each other the second is known and not sent on, so that a server that refused the first never gets it |
| FloodOrder.TenIsKnownAlready | src/hostmask.c:161-230 | so it is with 10.0.0.0/8 and then 10.* between servers of this program with a gline_min_cidr of 8 and 16: both are read as 10/8, and only the first has a length to compare |
| FloodOrder.StarTurnsUp | src/s_conf.c:3433-3471 | a G-line for *abcd@x/8 can leave one for *@*abcd at another server, which nobody introduced |
| FloodEnds.DeliveryDecreases | modules/m_gline.c:149-212 | a delivery lowers the measure of masks missing at servers and lines in flight, lines about masks with a stray bit weighing less with each server passed |
| FloodEnds.StrayWanders | modules/m_gline.c:149-212 | a mask with a stray bit is new wherever it comes: its trails are walks over links that turn back only to servers that read the split form |
| FloodEnds.EndsUnlessEndless | modules/m_gline.c:149-212 | there is a bound on the deliveries for each introduction, over all runs, exactly if no mask with a stray bit has a walk from where it is introduced that takes a link twice in the same direction |
| FloodEnds.EndlessDoesNotEnd | modules/m_gline.c:149-212 | such a walk gives runs from the empty network with one introduction and more deliveries than any bound |
| FloodCases.FloodTerminates | modules/m_gline.c:149-212 | without stray bits the flood ends on every graph of links |
| FloodCases.TreeFloodsEnd | modules/m_gline.c:149-212 | on a tree of servers that do not read the split form the flood of every mask ends |
| FloodCases.RingIsEndless | modules/m_gline.c:149-212 | round a ring of servers that take it, a mask with a stray bit goes for ever |
| FloodCases.EchoIsEndless | modules/m_gline.c:182-189 | and between two linked servers that read the split form |
| FloodCases.OneReaderIsEnough | modules/m_gline.c:182-189 | and around one such server with two neighbours that do not read it |
| ServerMap.DumpMap | modules/m_map.c:117-194 | the recursive printer over the one shared buffer emits exactly the pure drawing of its subtree, and leaves the bytes before its own part but for the connector |
| ServerMap.DumpBehind | modules/m_map.c:168-193 | the loop over the children emits the drawings of the remaining ones, with the parent connectors in place |
| ServerMap.MoMap | modules/m_map.c:107-112 | for every tree that fits the buffer the whole output is the drawing of the tree |
| ServerMap.PrintBody | modules/m_map.c:126-165 | label, dashes, bar and users end up at their columns behind what was in the buffer |
| ServerMap.LineIsRead | modules/m_map.c:126-165 | one line tells the distance from the root, the label and the users |
| ServerMap.DrawingIsEntries | modules/m_map.c:117-194 | the lines are the preorder of the tree with depths |
| ServerMap.EntriesAreRead | modules/m_map.c:117-194 | a preorder with depths is read back as the forest it came from |
| ServerMap.MapIsReadable | modules/m_map.c:117-194 | reading a drawing gives the tree as it is shown |
| MapShape.SignsShowWhatComes | modules/m_map.c:168-193 | before each server the drawing shows, for it and for every server on the way to it, whether another one with the same uplink comes further below: a bar if so, a corner or a blank if not |
| MapShape.BarStands | modules/m_map.c:143-160 | the bar before the users stands in one column of all lines that leave room for it, with dashes up to there |
| ServerMap.DrawingDetermines | modules/m_map.c:117-194 | two trees have equal drawings exactly if they are equal, for an administrator with ids and names without a bracket; for others exactly if they are equal up to ids |
| Capab.CapabSearch | modules/m_cap.c:99-115 | the comparator orders the next token against a name, whatever follows the token |
| Capab.Verdict | modules/m_cap.c:99-115 | its sign is the order of token and name, and 0 means the token is the name ignoring case |
| Capab.BSearch | modules/m_cap.c:117-164 | binary search over any sorted table of good names finds the entry that the token names, exactly if there is one |
| Capab.LookupIs | modules/m_cap.c:117-164 | there is at most one such entry |
| Capab.FindCap | modules/m_cap.c:117-164 | find_cap() is the specified next element: leading blanks and a minus, the looked-up token, and a cursor that moved on or ended the list |
| CapSession.CapabListIsGood | modules/m_cap.c:83-97 | the two-entry table, once sorted, is one of the tables above and has no modifiers |
| CapSession.SortAgreesWithSearch | modules/m_cap.c:93-115 | the order it is sorted by and the order it is searched by put two names differently exactly if one has a bracket where they first differ and the other a character that lies between it and its lower case, or is its lower case and what follows decides otherwise |
| CapSession.WithoutBrackets | modules/m_cap.c:93-115 | the orders agree on names without [ \ ] ^ |
| CapSession.SortDisagreesOnBrackets | modules/m_cap.c:93-115 | and disagree on names with them, by an example |
| CapPrint.SendCaplist | modules/m_cap.c:174-232 | sends the lines of the printer specification |
| CapPrint.LinesFit | modules/m_cap.c:205-230 | every line fits the buffer, and all lines but the last carry the continuation mark |
| CapLaws.ListIsFull | modules/m_cap.c:211-222 | a line is ended only if the next entry does not fit behind it |
| CapLaws.ListSays | modules/m_cap.c:174-232 | the lines put together are the shown entries in the order of the table with single spaces between them |
| CapLaws.TextsAre | modules/m_cap.c:183-196 | shown is what is set or cleared, and in an answer about nothing what is not hidden |
| CapLaws.EntryIsSeen | modules/m_cap.c:198-209 | an entry tells its name, whether it is cleared, has to be acknowledged, or stays |
| CapPrint.FindAppend | modules/m_cap.c:117-164 | reading an element does not depend on a further word behind the list |
| CapPrint.ReadAppend | modules/m_cap.c:243-286 | reading a list and one more word is reading the list and then the word |
| CapPrint.PrintedIsRead | modules/m_cap.c:174-232 | the printed lines, tokenized one after the other, are the entries that are shown, if none has a modifier; an entry with a modifier in front must be no name of the table |
| CapPrint.NoModifier | modules/m_cap.c:117-164 | which is so if no name begins with a modifier in any case |
| CapSession.AckIsReadable | modules/m_cap.c:174-232 | printing and tokenizing is the identity on the words of the printer, exactly if no shown entry has a modifier the tokenizer does not know |
| CapSession.EmptyWordListsAll | modules/m_cap.c:174-232 | an answer about no capability reads as every visible one, and can be read exactly if there is one and none has a modifier |
| CapSession.Client.CapReq | modules/m_cap.c:243-295 | all of a request or nothing: on refusal both words are unchanged and NAK is sent, else both follow the accumulated words and ACK is sent |
| CapSession.WalkRequest | modules/m_cap.c:256-286 | the loop accumulates the words element by element, keeps set and rem disjoint, and stops at the first element that is unknown or refused |
| CapLaws.RequestKeeps | modules/m_cap.c:256-286 | a granted request clears nothing that is sticky and sets nothing that is prohibited |
| CapLaws.OneIsGranted | modules/m_cap.c:256-270 | a request for one capability is granted exactly if it may be set, and to clear one, if it is not sticky |
| CapLaws.MoreIsRead | modules/m_cap.c:117-164 | a request of several words is read word by word, in any case of their letters |
| CapLaws.ProtoWaits | modules/m_cap.c:272-285 | a capability that has to be acknowledged becomes active or inactive by no request |
| CapLaws.OthersAreActive | modules/m_cap.c:272-285 | any other is active exactly if the client has it |
| CapSession.FollowIs | modules/m_cap.c:262-285 | following elements one by one is (old or set) & ~rem with disjoint set and rem |
| CapSession.RequestIsMirrored | modules/m_cap.c:243-295 | a client that applies the lines of an ACK to its copy of its capabilities agrees with the server |
| CapSession.ClearIsMirrored | modules/m_cap.c:325-348 | the same for CLEAR, if anything was cleared |
| CapLaws.ClearLeavesSticky | modules/m_cap.c:325-348 | CLEAR leaves the client what is sticky or was not active |
| CapSession.TrailingSpaceRefused | modules/m_cap.c:256-286 | a request that ends in a space is always refused |
| CapSession.Client.CapAck | modules/m_cap.c:297-323 | changes nothing, whatever the list |
| CapSession.Client.CapClear | modules/m_cap.c:325-348 | clears what is active and not sticky, and acknowledges exactly that |
| CapSession.Client.CapList | modules/m_cap.c:372-377 | tells a client with capabilities which of the table it has, and a client with none all that are visible, as if it had them: the lines can be read, and say this, exactly if that is not empty and has no modifier |
| CapSession.Client.CapLs | modules/m_cap.c:234-241 | lists all visible capabilities and holds back registration |
| CapSession.Client.CapEnd | modules/m_cap.c:350-370 | ends the negotiation, and registers exactly if nothing else is awaited |
| Dlink.List.Add | include/tools.h:101-114 | refines pushing to the front: ends, both directions, length and data |
| Dlink.List.AddTail | include/tools.h:133-146 | refines pushing to the back |
| Dlink.List.AddBefore | include/tools.h:116-131 | refines inserting before a node |
| Dlink.List.Delete | include/tools.h:151-174 | refines removing a node, which ends up unlinked |
| Dlink.List.Find | include/tools.h:183-195 | finds the first node with the data, or none exactly if no node has it |
| Dlink.List.FindDelete | include/tools.h:232-264 | removes and returns the first node with the data |
| Dlink.List.MoveFrom | include/tools.h:197-229 | refines putting one list in front of another, which is left empty |
| ClearChan.RemoveAMode | contrib/m_clearchan.c:219-262 | takes the flag from all members and announces the flagged ones, in order, over the heap list |
| ClearChan.LinesSayAll | contrib/m_clearchan.c:228-262 | the lines say all names in order, one to four a line, four in all but the last, with one mode letter per name |
| ClearChan.MarkedOnce | contrib/m_clearchan.c:228-246 | each flagged member is among the announced exactly once, and no other is |
| ClearChan.ClearedIsSeen | contrib/m_clearchan.c:194-212 | an observer who knows the flags of the members and applies the MODE lines sees each without the flags of operators, voices, and, where the server has them, of owners, protected and half operators |
| ClearChan.FourALine | contrib/m_clearchan.c:219-262 | each line takes from one to four modes |
| ClearChan.Channel.RemoveOthers | include/tools.h:80 | a sweep that deletes its current node visits every original node once, in order, and leaves exactly the members of one client |
| ClearChan.Channel.KickList | contrib/m_clearchan.c:147-184 | all former members are kicked, in order, and the operator is left as the one member, without the channel being destroyed in between |
| ClearChan.Channel.RemoveUser | src/channel.c:166-184 | unlinks one member, and destroys the channel exactly if he was the last |
| ClearChan.Channel.AddUser | src/channel.c:109-158 | puts a new member in front of the list |
| ClearChan.RemoveModes | contrib/m_clearchan.c:194-212 | the modes go one after the other, each announced as of the start |
| ClearChan.MoClearchan | contrib/m_clearchan.c:81-145 | refuses non-admins, unknown channels and members; else the channel is locked and holds the one operator |
| Umodes.ModeStringOper | modules/m_services.c:362-505 | an SVSMODE string never makes an operator, and unmakes one exactly if an o is read under a minus |
| Umodes.ModeStringPlain | modules/m_services.c:362-505 | a mode that no other letter touches ends as its last toggle says, however often it is toggled |
| Umodes.OperOnlyIsGuarded | modules/m_services.c:498-505 | no string gives a local user who is no operator an oper-only mode, or takes one from him, but for the three letters that are not tested; an operator who loses his rights in its course is left with none |
| Umodes.ModeStringFollows | modules/m_services.c:498-513 | every mode without a case of its own ends as its last toggle says, also oper-only ones of remote users and of operators, unless it is stripped |
| Umodes.CloakFollows | modules/m_services.c:406-465 | a cloak follows the last x, but is never put on a local user who may not have one |
| Umodes.RegnickFollows | modules/m_services.c:476-482 | the mark of a registered nick follows the last r |
| Umodes.NoRegisteredGringo | modules/m_services.c:468-482 | nobody comes to be both a gringo and registered |
| Umodes.GringoFollows | modules/m_services.c:468-474 | without r in the string, B makes a gringo of exactly those whose nick is not registered |
| Umodes.SslAndDebugStay | modules/m_services.c:380-383 | S and d set and clear nothing |
| Umodes.LettersAreModes | src/s_user.c:92-160 | each mode has one letter, and each letter at most one mode |
| Umodes.DeoperTakes | modules/m_services.c:395-404 | who loses his rights loses oper, admin, netadmin and the oper-only modes, and nothing else |
| Umodes.ModeParamsAreOneString | modules/m_services.c:362-366 | the parameters are read like one string |
| Opers.Ircd.SvsMode | modules/m_services.c:327-525 | the modes become what the string says, and Count.invisi stays right exactly if it was |
| Opers.Ircd.Unoper | modules/m_services.c:370-404 | taking one operator down keeps Count.oper, oper_list and the handlers right |
| Opers.Ircd.SvsNoop | modules/m_services.c:660-708 | SVSNOOP + takes every local operator down and nobody else; Count.invisi stays right exactly if no invisible operator loses +i |
| Opers.Ircd.Sweep | modules/m_services.c:675-701 | the sweep over oper_list, which shrinks under it, reaches every local operator once |
| Opers.Ircd.OperUp | src/s_user.c:1493-1540 | the new operator is in front of oper_list and has the granted modes; Count.invisi stays right exactly if the grant adds no +i |
| Opers.GrantedIs | src/s_user.c:1500-1530 | what OPER gives and takes, mode by mode: admin only by privilege or if the user has it or his block gives it, nick changes only by privilege |
| Opers.Ircd.OperCommand | modules/m_oper.c:76-144 | makes an operator exactly if every check passes and the server is not in NOOP mode, else changes nothing |
| Opers.Ircd.ChallengeCommand | modules/m_challenge.c:72-193 | a request stores the expected response; a response makes an operator exactly if it agrees and the server is not in NOOP mode |
| Opers.Ircd.CaptureNick | modules/m_capture.c:82-184 | captures a local user who is no operator, and only for those allowed to |
| Opers.Ircd.CaptureMask | modules/m_capture.c:104-178 | captures exactly the local non-operators that the mask hits |
| Opers.Ircd.UncaptureNick | modules/m_capture.c:190-280 | gives a captured user his handler back |
| Opers.Ircd.UncaptureMask | modules/m_capture.c:209-274 | gives exactly the captured users that the mask hits their handler back |
| Opers.Ircd.Register | modules/core/m_nick.c:710-725 | a new user, local or remote, is counted |
| Opers.Ircd.Leave | src/client.c:565-582 | a leaving user is uncounted and leaves oper_list |
| Opers.Ircd.Run | modules/m_services.c:660-708 | over every run in which users come and go, with SVSNOOP, SVSMODE, OPER, CHALLENGE, CAPTURE and UNCAPTURE, the counts, oper_list and handlers stay right, and no local user is an operator between SVSNOOP + and the next SVSNOOP -, and no local user who is no operator has an oper-only mode that he did not come with, but for cloak, gringo and regnick |
| Nicks.StrHashAgrees | src/hash.c:106-120 | the hash function maps names that are the same to the same chain |
| Nicks.HashOfOneName | src/hash.c:105-120 | the value of the hash for one name and key |
| Nicks.ClientTable.FindClient | src/hash.c:364-390 | finds the client of a name exactly if there is one, and moves it to the front of its chain |
| Nicks.InsertKeepsIndexed | src/hash.c:141-148 | a new client is in the chain of its name once and every other where it was |
| Nicks.DeleteKeepsIndexed | src/hash.c:235-260 | a deleted client is in no chain and every other where it was |
| Nicks.FrontKeepsIndexed | src/hash.c:370-387 | moving a client to the front of its chain keeps the table exact |
| Nicks.CandidateIsClean | modules/m_services.c:559-586 | a retried nick passes the nick check and fits, and is the old nick again if that fills the buffer |
| Nicks.CandidateSays | modules/m_services.c:576-578 | a retry for a nick of at most 23 characters is the nick, a dash and the random number below 99999 in decimal |
| Nicks.DecimalIsRead | modules/m_services.c:577-578 | the number is read back as it was, without needless zeros |
| Nicks.NickIsCut | modules/m_services.c:560-561 | a nick is cut after 29 characters |
| Nicks.ExpectedIs | modules/m_services.c:559-601 | the person keeps his nick if the command is refused or it is his already; else he gets it if it is free, or the first candidate that is, or has to leave |
| Nicks.FirstFreeIsFirst | modules/m_services.c:580-586 | the tries end at the first free nick |
| Nicks.ClientTable.Retry | modules/m_services.c:576-586 | the loop of tries returns the first free nick, or the holder of the last one when none is free |
| Nicks.ClientTable.MeSvsNick | modules/m_services.c:536-652 | keeps the table exact and injective; the target gets a free, clean nick that fits, or a client exits, or nothing changes, each in exactly its case |
| Nicks.LongNickCollides | modules/m_services.c:580-601 | if a nick that fills the buffer is held by another client, no try helps and somebody exits |
| Nicks.CleanNickName | modules/m_services.c:746-762 | accepts exactly the non-empty nicks of nick characters that start with neither digit nor dash |
| Spoof.SpoofFile.MoSpoof | contrib/m_spoof.c:148-345 | appends exactly one block, if every check passes, and else nothing |
| SpoofReader.BlockIsRead | contrib/m_spoof.c:272-335 | a reader of the block finds, field by field, the collapsed mask with all users if it names none, the spoof and the password if there are any, the flags by their names exactly as the letters ask, and the class of operators exactly for the letter o |
| SpoofReader.TwoStarsAreOne | src/match.c:202-226 | of two stars in a row one stays |
| SpoofReader.AnyLineEnd | src/fileio.c:210-262 | a line ends with LF, with CR, or with both, which counts once |
| SpoofReader.LongLineIsCut | src/fileio.c:210-262 | a longer line is read in pieces of 1023 characters |
| Spoof.SpoofFile.MoDelspoof | contrib/m_spoof.c:353-500 | replaces the file by the rewritten one exactly if the mask was found |
| Spoof.SpoofFile.TryFlag | contrib/m_spoof.c:134-146 | writes the name and a separator for a flag that is set, and clears it |
| Spoof.CopyAll | contrib/m_spoof.c:417-492 | the loop over the lines is the fold of the one-line rewriter |
| Spoof.CopyOneLine | contrib/m_spoof.c:417-491 | the cursor code finds exactly the value of a user line and treats it as specified |
| Spoof.FbGets | src/fileio.c:210-262 | reads one line: up to a line end, a CR with or without LF counting as one, or the size of the buffer |
| SpoofLaws.ExactlyTheMaskIsRemoved | contrib/m_spoof.c:417-492 | on any file of blocks without quotation marks in their masks, the blocks whose user and host are the mask ignoring case are gone and all others stay as they are, in order, and DELSPOOF says whether there was one |
| SpoofLaws.DelspoofIsExact | contrib/m_spoof.c:417-492 | on a file of blocks that SPOOF wrote this holds for every mask, and for the file that is left, exactly if no block has a quotation mark |
| SpoofLaws.ExactForOneMask | contrib/m_spoof.c:417-492 | for one mask without quotation mark it holds exactly if no block has one or the outcome is defined and nothing is found |
| SpoofLaws.UnrelatedIsRemoved | contrib/m_spoof.c:434-470 | DELSPOOF of u@p removes the block of another mask, u@p followed by a quotation mark and more |
| SpoofLaws.QuotedUserIsUndefined | contrib/m_spoof.c:434-470 | a block with a quotation mark in its user leaves DELSPOOF of any mask with a user without defined outcome |
| SpoofLaws.QuotedBlockShrinks | contrib/m_spoof.c:434-470 | a block with a quotation mark is dropped or written shorter by DELSPOOF of any mask that has none |
| SpoofLaws.BlockIsCopied | contrib/m_spoof.c:417-492 | one block is dropped, copied as its user line is read, or makes the outcome undefined, as a whole and whatever came before it |
| SpoofLaws.DelspoofUndoesSpoof | contrib/m_spoof.c:272-335 | SPOOF and then DELSPOOF of a new mask restores the file exactly if neither the mask nor a block of the file has a quotation mark |
| SpoofLaws.SpoofThenDelspoof | contrib/m_spoof.c:272-335 | the same for the block that SPOOF writes for its parameters |
| SpoofLaws.WrittenBlockIsGood | contrib/m_spoof.c:272-335 | whatever SPOOF writes is such a block, without quotation mark exactly if the mask has none |
| SpoofLaws.TailIsPlain | contrib/m_spoof.c:278-335 | no line of a block behind its user line can be taken for another user or auth line |
| SpoofLaws.FlagLineIsRead | contrib/m_spoof.c:283-326 | the flag line, read back as names, is exactly the set of flags the letters stood for |
| SpoofLaws.QuotedMaskIsMissed | contrib/m_spoof.c:438-470 | DELSPOOF of a mask with a quotation mark finds nothing in any file, not even the block that SPOOF wrote for it |
| Tburst.MsTburst | modules/m_tburst.c:88-159 | takes the topic of an older channel, or of one as old with a newer topic, shows it exactly if its text differs, and sends the burst on whether taken or not |
| Tburst.OlderChannelWins | modules/m_tburst.c:122-134 | two servers that burst a channel to each other both end with the topic of the older channel, or without one, whatever the times of the topics |
| Tburst.NewerTopicWins | modules/m_tburst.c:122-134 | of channels of one age the later topic is taken, and the same time changes nothing |
| Tburst.StoredIsCut | src/channel.c:1202-1222 | a topic keeps its first 390 characters, and who set it 107 |
| Tburst.Channel.SetChannelTopic | src/channel.c:1202-1222 | stores a topic with its time, or unsets it and leaves the time |
| Tburst.RelayedToAllOthers | modules/m_tburst.c:147-158 | a burst goes on exactly once over every link but its own: as TBURST, or as TB to links without TBURST if it sets a topic |
| Tburst.BurstCarriesTheTopic | src/s_serv.c:1551-1573 | an accepted burst leaves exactly the topic and time of its sender |
| Tburst.RepetitionChangesNothing | modules/m_tburst.c:119-145 | hearing a burst again changes nothing, whatever was heard in between, exactly unless it unsets a topic that came in between and is older |
| Tburst.RepeatedUnsettingUnsets | modules/m_tburst.c:119-145 | so an unsetting that comes twice takes away an older topic that came in between, by an example |
| Tburst.OrderMatters | modules/m_tburst.c:119-145 | two bursts can be heard in either order, exactly unless one sets a topic and the other is its later unsetting |
| TopicFlood.HandlerForwards | modules/m_tburst.c:147-150 | the lines of the handler are the copies that a delivery puts in flight |
| TopicFlood.DeliveryKeepsInvariant | modules/m_tburst.c:119-155 | for each burst and server: heard, or on its way there exactly once |
| TopicFlood.ForwardsAreNew | modules/m_tburst.c:147-150 | no copy that is sent on is in flight already |
| TopicFlood.EveryServerHearsEveryBurstOnce | modules/m_tburst.c:119-155 | the flood ends, and it is over exactly when every server has heard every other server's burst once |
| TopicFlood.NewestTopicIsHeld | modules/m_tburst.c:119-155 | if the newest entry is a topic, every server ends up with that topic and its time, in whatever order bursts are delivered |
| TopicFlood.UnsettingReachesAll | modules/m_tburst.c:119-155 | if the newest entry is an unset topic and every topic carries the oldest time, every server ends up without one |
| TopicFlood.UnsettingCanBeLost | src/channel.c:1212-1221 | otherwise there is a run after which a server keeps an older topic |
| TopicFlood.NewestTopicWins | modules/m_tburst.c:119-155 | every run ends with the newest topic everywhere, exactly if the newest entry is a topic or every topic carries the oldest time |
| Encap.MsEncap | modules/m_encap.c:68-130 | sends nothing and calls nothing if a parameter before the last ends behind the buffer; else sends the parameters on and calls the local handler with the prefix and what follows the subcommand |
| Encap.StringToArray | src/parse.c:123-175 | reads the parameters of a message |
| Encap.ParametersAreKept | modules/m_encap.c:76-98 | what a server reads of the text sent on are the same parameters, exactly if there were more than two or the second could stand before others |
| Encap.SentIsKept | modules/m_encap.c:76-98 | the same for what is really sent on, exactly if besides it fits the buffer: a text that is cut is never read as the parameters |
| Encap.LineIsKept | modules/m_encap.c:76-103 | the same for the whole line with sender and command |
| Accept.Accepts.MAccept | modules/m_accept.c:76-145 | on a star or no argument sends the names on the list in order and then the end of the list, and nothing else; else deletes and adds in order, with exactly the replies of each name |
| Accept.ListingSays | modules/m_accept.c:205-238 | the lines of a listing joined by spaces are the names on the list in order, followed by one end |
| Accept.WantedIs | modules/m_accept.c:163-183 | names with a dash are to be deleted, the others to be added, if a client has them |
| Accept.MissesAre | modules/m_accept.c:171-176 | of every name that no client has it is said that there is none |
| Accept.DelRepliesAre | modules/m_accept.c:92-111 | a deletion is complained of exactly if the client is not on the list when his turn comes |
| Accept.AddRepliesAre | modules/m_accept.c:116-144 | of a client on the list it is said that he is; a new one is refused as the last with the counter at the limit, and else followed by the whole list with him first |
| Accept.AddKeepsGood | modules/m_accept.c:192-198 | adding keeps the two sides of the relation mirrored, free of repeats and within the limit |
| Accept.DelKeepsGood | src/client.c:1269-1299 | and so does deleting |
| Accept.DelAllIsExact | modules/m_accept.c:92-111 | exactly the named clients are taken off the list, and no other list changes |
| Accept.AddAllKeepsGood | modules/m_accept.c:113-144 | the loop counter never falls behind the length of the list, so that the limit holds |
| Accept.AddAllAddsOnly | modules/m_accept.c:116-144 | nobody is added but those named, nobody is lost, and no other list changes |
| Accept.AllAdded | modules/m_accept.c:116-144 | all names of a command are accepted exactly unless a new one comes with the counter at the limit; names accepted before count too |
| Accept.QuitForgets | src/client.c:1308-1318 | a client that leaves is on no list and has none, and the others keep all other entries |
| Accept.BuffersKeepNames | modules/m_accept.c:154-183 | what is put into the buffers comes out of them |
| Accept.LinesAreTheList | modules/m_accept.c:205-238 | the lines joined by spaces are the list in order, and no line is too long |
| Accept.LinesAreFull | modules/m_accept.c:222-229 | a line is ended only if the next name does not fit into its reply |
| Accept.RepliesFit | modules/m_accept.c:211-234 | every reply fits into a message |
| Accept.Accepts.ListAccepts | modules/m_accept.c:205-238 | prints the lines of the specification |
| Accept.Accepts.Run | modules/m_accept.c:75-145 | every run of connecting, quitting and ACCEPT keeps the lists mirrored, free of repeats and within the limit |

## Left out

- Sockets, files, logging, the text of messages and numerics: what is sent where is returned as data. Opening, renaming and rereading the SPOOF file are not part of this model.
- Dead links are not skipped in sends, and lazy links are not modelled: every link is up and knows every channel and client.
- G-line expiry, the database of K-lines that a placed G-line is put into, and GLINE and UNGLINE racing in one run: the flood theorems are for runs of GLINE. The local part of a G-line is the list of temporary ones.
- FloodOutcome.FloodConverges: that misreadings come back, and that neighbours take masks alike, is sufficient, not necessary; whether a mask that is not sent on one way comes by another depends on the whole network. `FloodOrder.MisreadingGetsInTheWay` and `FloodOrder.KnownIsNotSent` show that neither can be dropped, and `FloodRuns.FoundInSomeRun` is exact without them.
- FloodOutcome.OneMaskReachesAll: that nothing else is read as a mask which the mask names is sufficient only, for the same reason; in `FloodOrder.MisreadingGetsInTheWay` all servers take the misread mask and one never gets it.
- GlineNet.ReadingIsReadable: what the tokenizer of addresses makes of a host is a parameter of which `Masks.GoodTokens` is used; the users that a server finds by nick stay the same during a flood; masks are introduced as services send them, as user@host, with a reason that is accepted.
- Servers without the GLN capability are sent a third form of the line, for which this model has no reader: they place nothing.
- UNGLINE: `remove_gline_match()` is modelled, its propagation is not.
- ServerMap.MoMap: the number and percentage of users are an opaque string, and the tree must fit the buffer, as the code expects of it.
- Accept.Accepts.MAccept: the argument comes from a line, so that the name buffers cannot overflow and their truncation is not modelled; a name with a comma or an empty name is nobody's.
- Accept.Accepts.ListAccepts: names fit into a reply, which the lengths of nicks and server names guarantee.
- The two lists of an ACCEPT relation are sequences here; their nodes are modelled in `Dlink`.
- ClearChan.Channel.AddUser: the list of channels of the client and the counters of the join flood are not modelled.
- ClearChan.Channel.RemoveUser: the list of channels of the client is not modelled; what IsMember() answers from it is a parameter that agrees with the members of the channel.
- ClearChan.MoClearchan: the sends of JOIN, SJOIN, MODE and WALLOPS are left out, but for the channel TS they name.
- Opers.Ircd.Run: MODE by the user himself, KILL and the effect of a changed configuration are not modelled.
- Opers.Ircd.SvsMode: the service stamp, and the host that a user gets or loses with the mode x, are not modelled.
- Nicks.ClientTable.MeSvsNick: the new TS, the +r mode, notices and history are left out. An exiting client only leaves the table.
- Spoof.SpoofFile.MoSpoof: whether an auth block for the mask is known is a parameter.
- SpoofLaws.DelspoofUndoesSpoof: lines that do not fit the 1023 characters of the reader are excluded; parameters of a message cannot be that long.
- Tburst.MsTburst: TB messages and TOPIC are left out, since they are accepted unconditionally, and so is the channel TS changing under a burst: TopicFlood assumes one channel TS, as in a network whose channels have merged.
- TopicFlood.NewestTopicWins: all links support TBURST.
- Encap.MsEncap: which servers match the destination is not modelled; a text longer than the message buffer, which no parsed line can yield, is cut as the code cuts it and its overflow is not modelled.
- Encap.LineIsKept: a line longer than a message is cut once more when it is sent, which is not modelled.
- Reporting commands, K- and D-lines, encryption, regular expressions and the lazy-link modules would add only easy members or rest on code outside the repository.
- CapSession.Client.CapEnd: says whether the client can be registered; registering is not modelled.
