# Mesh test console in Dafny

This project models the command console and mesh test program of
LowPoweredMesh. The harness runs several mesh nodes on one machine and drives
them from a typed console or a script. The model covers three things:

- **The console of `parser.c`.**
  - `decode_line` is an in-place tokenizer. It cuts a line at the first `//`. It then cuts at the first `#` unless that `#` opens `#define`. What remains is split on blanks into at most `max_params` words, and a NUL is written after each word.
  - `parse_line` dispatches on the first word. `help` is reserved. Otherwise the first table entry with exactly that name runs; an unknown name gives `-EINVAL`.
  - `parse_file` runs a script either abort-on-error or run-everything.
- **The console commands of `mesh_prog.c`.** `send` checks its arguments and truncates the payload. `routes` walks the routing table until it finds no entry.
- **The five driver callbacks of `mesh_prog.c`.** These are radio init, send and receive, the application-delivery callback and the millisecond timer.

Modules:

- `Wrappers`: `Option`.
- `CStrings`: the C library pieces the code relies on: NUL-terminated buffers, `strlen`, `isblank`, `atoi`.
- `Tokenizer`: `decode_line`. It is given twice:
  - as a pure word function, `Words`/`TokensFrom`;
  - as the in-place algorithm, `DecodeLine`, over a buffer value that it returns mutated.

  The algorithm is proved to produce exactly the pure words, as NUL-terminated slices of the buffer.
- `TokenizerFacts`: an independent reference for the splitter, the first `max` non-empty blank-separated fields, proved equal to the scan on text without CR, LF or NUL. It also holds the comment rules and worked lines.
- `Console`: `parse_line` (`Dispatch`, `ParseLine`) and `parse_file` (`Trace`, `ParseFile`).
  - A handler is an abstract function from a state, argc and argv to a new state and a status.
  - The state is a type parameter. Any effect a handler has is threaded through it.
- `MeshProg`: the commands, the driver callbacks and the program's command table.
  - Every call into the mesh engine or the sockets is returned as a request record.
  - Every answer from them is a parameter: an oracle function or an outcome value.

Three behaviours of the code that a reader might not expect, and that the model follows:

- **Script result.** With errors continued, `parse_file` returns 1 when some line's status was non-zero, a positive status included: it accumulates `retval = retval || e`.
- **Ack length.** The acknowledgement is `"ACK"` sent with length 4, so the terminator is included.
- **`help` in the table.** `parse_line` answers `help` itself before searching the table, so a table entry named `help` is never called.

`ParseFile` decodes every line before it runs any. The C loop decodes each line just before running it. Decoding depends on nothing a handler can change, so the outcomes are the same.

## Model

| member | source | states |
|---|---|---|
| CStrings.StrLen | mesh_prog.c:201 | strlen: the result is the index of the first NUL, every earlier character is non-NUL, and the whole buffer is counted when it holds no NUL |
| CStrings.CString | parser.c:95 | the C string a buffer holds is its NUL-free prefix that stops exactly at the first NUL (or at the end) |
| CStrings.AtoiDecimal | mesh_prog.c:200 | atoi reads back every integer written in decimal, sign included |
| CStrings.Atoi | mesh_prog.c:200 | atoi: a string with no digit converts to 0, and a negative result comes only from a '-' right after the leading white space |
| Tokenizer.FindSlashSlash | parser.c:33 | strstr(line, "//"): the index of the first "//", with no "//" earlier; the length when there is none |
| Tokenizer.FindHash | parser.c:37 | strstr(line, "#"): the index of the first '#', with no '#' earlier; the length when there is none |
| Tokenizer.StripComments | parser.c:33-39 | the text that is split is a prefix of the line and no "//" of the line starts inside it; the first '#' kept opens "#define". Where it stops short of the line, the line has there either its first "//", or its first '#', which opens no "#define" |
| Tokenizer.SkipBlanksFrom | parser.c:47-48 | the first non-blank position at or after pos; everything skipped is a space or tab |
| Tokenizer.WordEndFrom | parser.c:55-57 | the first character at or after q that is space, tab, CR, LF or NUL; nothing before it in the word is |
| Tokenizer.TokensFrom | parser.c:42 | the scan never returns more than max words (none for a non-positive cap) |
| Tokenizer.TokensFromAreWords | parser.c:47-63 | every returned word is non-empty and holds no space, tab, CR, LF or NUL |
| Tokenizer.SpansFromCover | parser.c:55-63 | each word is the slice of the stripped text between its recorded start and end, with start < end, in the scanned range |
| Tokenizer.SpansFromOrdered | parser.c:65-69 | words are left to right and do not overlap: each word ends strictly before the next one starts |
| Tokenizer.CutBuffer | parser.c:33-39 | after the two comment cuts the buffer holds the stripped text followed by NUL, and the only changed bytes are NULs at the first "//" and at the cut '#' |
| Tokenizer.CutComments | parser.c:32-39 | the in-place comment cut, done with the strstr/strncmp searches on the buffer, yields exactly that buffer |
| Tokenizer.SearchSlashSlash | parser.c:33 | the strstr(line, "//") scan over the buffer stops at the index of the first "//" of the C string it holds, or at its terminator |
| Tokenizer.SearchHash | parser.c:37 | the strstr(line, "#") scan over the buffer stops at the first '#' of the C string it holds, or at its terminator |
| Tokenizer.MatchDefine | parser.c:38 | the strncmp(&pos[1], "define", 6) comparison on the buffer is true exactly when the '#' at j opens "#define" |
| Tokenizer.SkipBlanks | parser.c:47-48 | the in-place skip stops where the pure skip does, and it sees NUL there exactly when the stripped text has ended |
| Tokenizer.SeekWordEnd | parser.c:55-57 | the in-place word-end search stops where the pure search does, and it sees NUL there exactly when the word ends at the terminator |
| Tokenizer.NextWord | parser.c:46-69 | one turn of the word loop either finishes the scan with every word found, or finds the next word of the scan, writes NUL after it and records its start |
| Tokenizer.SplitWords | parser.c:41-72 | the word loop finds exactly the pure scan's words; each is NUL-terminated in the output buffer at its recorded start, they come in order, and only NULs after words change |
| Tokenizer.DecodeLine | parser.c:27-73 | the words decoded in place are exactly `Words(line, max)`. There are at most max of them. Each is a NUL-terminated slice of the mutated buffer and reads back as that C string. They lie inside the stripped text, left to right and without overlap. Nothing at or past the original terminator changes. The only changed bytes are NULs at the first "//", at the cut '#' and after each word |
| TokenizerFacts.TokensAreFields | parser.c:41-70 | on text without CR, LF or NUL, the words are the first max non-empty blank-separated fields of the text |
| TokenizerFacts.TokensAreFieldsOfLine | parser.c:41-70 | a line as fgets returns it, ending in LF or CR LF, gives the first max non-empty blank-separated fields of the text before the line end |
| TokenizerFacts.TokensFromLineEnd | parser.c:51-63 | a trailing LF or CR LF adds no word and changes none: it stops the scan at a word position or ends the last word |
| TokenizerFacts.BlankTextHasNoWords | parser.c:47-52 | text that is all blanks from pos on gives no words |
| TokenizerFacts.SlashCommentDropped | parser.c:33-35 | everything from a "//" on is dropped, whatever follows it |
| TokenizerFacts.HashCommentDropped | parser.c:37-39 | a first '#' not followed by "define" drops itself and everything after it |
| TokenizerFacts.DefineKept | parser.c:37-39 | a "#define" with no other comment marker around it is kept verbatim |
| TokenizerFacts.UncommentedKept | parser.c:33-39 | a line with no "//" and no '#' is split whole |
| TokenizerFacts.SlashAfterDefine | parser.c:33-39 | a "//" after a kept "#define" still cuts the line there |
| TokenizerFacts.HashAfterDefine | parser.c:37-39 | once the first '#' opens "#define", a later '#' is kept as text; only the first '#' is tested |
| TokenizerFacts.TwoWords | parser.c:41-70 | text "w1 w2" with trailing blanks decodes to exactly the two words |
| TokenizerFacts.DefineLineExample | parser.c:37-38 | the line "#define FOO" decodes to ["#define", "FOO"] |
| TokenizerFacts.HashCommentExample | parser.c:37-39 | the line "# comment" decodes to no words |
| TokenizerFacts.SlashCommentExample | parser.c:33-35 | the line "a b // c d" decodes to ["a", "b"] |
| Console.Lookup | parser.c:94-95 | the first table index, in order, whose name equals the word exactly; no index when no name does |
| Console.Dispatch | parser.c:88-105 | no handler runs, and the state is unchanged, exactly when there are no words, the first word is "help", or no entry has that name. No words and "help" give 0; an unknown name gives -EINVAL. Otherwise the first matching entry runs on (nparams, args) and its status is returned unchanged. An entry named "help" is never called |
| Console.ParseLine | parser.c:75-106 | the in-place decode followed by dispatch gives exactly the dispatch outcome of the line's words |
| Console.DecodeArgs | parser.c:77-79 | decoding the line in place with a cap of 20 and reading each word back from the buffer as a C string yields exactly the line's words |
| Console.TraceStep | parser.c:114-115 | each script line runs in the state the lines before it left |
| Console.TracePrefix | parser.c:114-119 | running the first m lines gives the first m outcomes of the whole script |
| Console.FirstFailure | parser.c:116-117 | the first line with a negative status, with every earlier status non-negative; none when no status is negative |
| Console.RunScript | parser.c:114-121 | with cont_on_error == 0 and some negative status, the first one is returned and the state is the one that line left, so no later line ran. Otherwise every line runs and the result is 1 exactly when some line's status was non-zero, else 0 |
| Console.DecodeScript | parser.c:114-115 | every line buffer of a script, decoded in place, gives that line's words |
| Console.ParseFile | parser.c:108-122 | the same two promises as RunScript, about the outcomes of the script's line buffers decoded with a cap of 20 |
| Console.ScriptAborts | parser.c:116-117 | when the line just run is the first to fail, it is the first failure of the whole script |
| MeshProg.CmdSend | mesh_prog.c:188-209 | fewer than 3 words gives -1 and no send; otherwise 0. The send goes to node atoi(argv[1]), type ack-app, hop limit 10, with len = min(strlen(text)+1, payload size) bytes: the text's first len-1 characters, then NUL |
| MeshProg.SendTruncates | mesh_prog.c:201-203 | the payload reads back as the text cut to payload size - 1 characters, and as the whole text when it fits |
| MeshProg.SendToDecimal | mesh_prog.c:200 | a node id written in decimal reaches mesh_send as that number, whatever its value |
| MeshProg.SendUsage | mesh_prog.c:195-198 | the words "send" with fewer than two more, dispatched through the program's table, return -1 and queue nothing |
| MeshProg.CmdRoutes | mesh_prog.c:227-245 | entries 0..K-1 are listed in index order, K is the first index with no entry, exactly K+1 queries are made, and the result is 0 |
| MeshProg.RoutesOfTable | mesh_prog.c:233-242 | over a table of K routes the command lists exactly those routes after K+1 queries |
| MeshProg.StubInit | mesh_prog.c:128-131 | radio init always reports success |
| MeshProg.RadioSend | mesh_prog.c:133-142 | one sendto per peer in peer order, each with the same frame and length, and the result is always 0 |
| MeshProg.RecvCount | mesh_prog.c:148-149 | recvfrom returns -1 exactly when no datagram was read; otherwise the bytes copied, at most the buffer length and the whole datagram when it fits |
| MeshProg.RadioRecv | mesh_prog.c:144-153 | the result is 1 exactly when a non-empty datagram was read into a non-empty buffer, else 0; the buffer gets the datagram's leading bytes and nothing else changes |
| MeshProg.GetTimer | mesh_prog.c:178-186 | 1 exactly when the slot is 4 bytes wide, and the slot then holds the clock modulo 2^32; otherwise 0 and the slot is unchanged |
| MeshProg.AppRecv | mesh_prog.c:155-176 | an ack is sent exactly when the packet is ack-app or nack and the engine says an ack is required; it replies to that packet with "ACK" and its NUL (length 4); the result is always 1 |
| MeshProg.Commands | mesh_prog.c:247-251 | the program's table holds send, stats and routes, in that order |
| MeshProg.SendLine | mesh_prog.c:247-248 | the words `send`, `<id>`, `<text>` dispatched through the program's table run entry 0, return 0 and append exactly one send request, to node id |

## Left out

- Sockets: `create_listener` and `create_talker` (`getaddrinfo`, `socket`, `bind`) are socket I/O. Their failure codes are not modelled.
- The `main` event loop: `select` with its 1 ms timeout, the `fgets` from stdin and the `mesh_service` tick are console I/O and timing. `getopt` handling and the unchecked `-p` peer count are left out for the same reason.
- `cmd_stats`: it only prints engine counters. In the command table its entry returns 0 and changes nothing.
- `cmd_routes` output: the printed lines are not modelled, only the entries listed. In the command table the `routes` entry returns 0 and changes nothing.
- `parse_filename`: `fopen`, `fclose` and errno are file I/O.
- `parse_file` input: the file is given as the sequence of `fgets` line buffers. How `fgets` splits a line longer than 1023 bytes is not modelled.
- All `printf`/`fprintf` output, including the `help` listing of command names.
- `memcpy` of the received bytes into `mesh_packet_t`: its layout is in `mesh.h`, which is not part of this model. `AppRecv` takes the decoded packet.
- The mesh protocol engine: `mesh_send`, `mesh_send_ack`, `mesh_get_routing_entry`, `mesh_is_ack_required`, `mesh_init` and stats are an external library. Calls to them are request records, and answers from them are oracle parameters.
- `mseconds()`: the clock value is a parameter; only the width check and the 32-bit store are modelled.
- `MESH_DATA_PAYLOAD_SIZE` comes from `mesh.h`. It is a parameter of type `PayloadSize`, at least 1.
- CStrings.Atoi: integers are unbounded, so the undefined behaviour of `atoi` on a number that does not fit an `int` is not modelled.
- `parse_line` with a negative `nfunctions`: the table is a sequence and its length is never negative.
- MeshProg.CmdRoutes: requires the engine to have some index with no entry. The C loop runs forever otherwise, and a terminating model cannot follow it.
- Text encoding: a Dafny `char` stands for one byte of a C `char` buffer throughout; no UTF-8 decoding is modelled.
- MeshProg.CmdSend: one Dafny `char` stands for one byte of the C buffer, so text is taken to hold characters below 256; a multi-byte UTF-8 character, which `strlen` counts byte by byte, is not modelled.
- MeshProg.CmdSend: reading `argv[2]` before the argc check is not modelled. The value is unused on that path.
- MeshProg.RadioSend: peers whose talker socket failed at start-up are not modelled. The C code dereferences their NULL address record.
- Handlers' argc: a handler receives argc and argv. `parse_line` always passes argc equal to the number of words, and `CmdSend` reads argc as the length of argv.
