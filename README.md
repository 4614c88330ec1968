# nv_pstate in Dafny

`nv_pstate` is a small command-line tool that sets the performance state (pstate) of an
NVIDIA card driven by nouveau. It writes the pstate, in hexadecimal, to the debugfs file
`/sys/kernel/debug/dri/<card>/pstate`. This project models the logic around its system calls
and proves properties of it:

- **Option processing** (`get_cmdline_opts`). A loop over the options getopt_long delivers
  fills in a `config_t` (`card`, `pstate`, `verbose`). Each `-c`/`-s` value is checked against
  [0, 255]. The loop returns 0 (continue), 1 (exit ok) or -1 (error), and returns at once on
  help, version, an unknown option or a refused value.
- **Payload formatting** (`write_pstate`). The pstate is printed as lowercase hex without
  padding, into an 8-byte buffer, with `"%x%c"` and a 0 character. snprintf counts that
  explicit NUL, and `slen++` then adds snprintf's own terminator. So write() is handed the
  digits plus **two** NUL bytes.
- **Path derivation** (`main`). The card number is printed in decimal into the template
  `/sys/kernel/debug/dri/%u/pstate`, in a 48-byte field, with size limit `PATH_MAX` = 47.
- **main's decisions**. When a write is attempted, and what main returns.

Files:

- `wrappers.dfy`: the `Option` type.
- `format.dfy` (module `Format`): digit strings in any base from 2 to 16, with their reference
  parser. Also snprintf's truncation rule, the path and the payload, and the lemmas that both
  fit their buffers.
- `options.dfy` (module `Options`): the option tokens, the `config_t` value, and a
  declarative description of what the option loop computes. The loop stops at the first
  stopping option, every option up to it takes effect on its own field, and the last one to
  name a field wins. Lemmas about it follow.
- `nv_pstate.dfy` (module `NvPstate`): `config_t` as a class with mutable fields.
  `GetCmdlineOpts` is the `while` loop, proved against `Options.Parse`. `WritePstate` fills the
  8-char array through a model of snprintf. `Run` is `main`.

Inputs and outputs. Outside effects are parameters and results:

- getopt_long's output is a sequence of `Opt` tokens.
- strtol's output is a `Conversion`: the `long` value, and whether errno was set.
- open()'s success, and the value write() returns, are an `Io` input.
- What the program does to the pstate file is an `Effects` result: the path it opens, the bytes
  it passes to write(), and whether it closes the descriptor.

### Behaviour as written

Some of what the code does differs from what a user of the tool would expect; the model follows
the code:

- Help and version make `main` return the parse result 1, so the process exits with status 1,
  not 0 (nv_pstate.c:118-122, 189-191, 205).
- A run with no `-c` and no other error prints "Incorrect and/or missing parameters". It still
  returns `retv`, which is 0 at that point (nv_pstate.c:188-205). So it exits with status 0 and
  writes nothing.
- The file receives the digits, then the NUL printed by `%c`, then snprintf's terminator.
  That is three bytes for `-s 15` (`'f', NUL, NUL`), not two (nv_pstate.c:147, 160-162).
- Help or version stops the loop only if no earlier option stopped it first.
  `-c 256 -h` returns -1 (nv_pstate.c:128).

## Model

| member | source | states |
|---|---|---|
| `Format.Digits` | nv_pstate.c:147 | the unpadded `%x`/`%u` text of n is canonical: at least one digit of the base, no leading zero, and it is "0" exactly for n = 0 |
| `Format.DigitsRoundTrip` | nv_pstate.c:147 | reading the printed digits back in the same base gives n |
| `Format.CanonicalRoundTrip` | nv_pstate.c:147 | printing the value of any canonical digit string gives that string back, so printing is a bijection onto canonical strings |
| `Format.DigitsLength` | nv_pstate.c:147 | n prints in at most k digits exactly when n < base^k |
| `Format.StoredLength` | nv_pstate.c:196 | snprintf stores fewer characters than its size limit, never more than the full output, and all of it exactly when the output is shorter than the limit |
| `Format.PstateHexFits` | nv_pstate.c:147-162 | a pstate in [0, 255] prints as 1 or 2 lowercase hex digits (1 exactly below 16), canonical, parsing back to the pstate; the bytes passed to write() are the digits + 2, at most 4, below the 8-byte buffer |
| `Format.PstateHexInBuffer` | nv_pstate.c:134-162 | every pstate below 16^6 keeps the digits + 2 bytes written inside `str_pstate` |
| `Format.CardPathFits` | nv_pstate.c:178-196 | for a card in [0, 255] the path is `/sys/kernel/debug/dri/` + decimal card + `/pstate`, at most 32 characters, stored untruncated under `PATH_MAX`, and its directory component reads back as the card |
| `Options.ToCInt` | nv_pstate.c:103 | the `(int)` cast keeps the long modulo 2^32 (GCC's rule for this implementation-defined conversion) and is the identity on values that fit an int |
| `Options.FirstStop` | nv_pstate.c:92-130 | the index found is the first option at which the loop returns (help, version, unknown, refused value), all before it being handled cleanly |
| `Options.LastAssignedSource` | nv_pstate.c:97-115 | a field no option names keeps its value; otherwise it holds the value stored by the last option naming it |
| `Options.SettleOne` | nv_pstate.c:96-127 | a single option stores into its own field only: `-c` the cast card, `-s` the cast pstate, `-V` verbose = 1, the others nothing |
| `Options.VerdictCases` | nv_pstate.c:90-130 | the loop returns 0 exactly when every option is `-V` or an accepted `-c`/`-s`; 1 exactly when it stops at help or version; the result is always -1, 0 or 1 |
| `Options.LaterOptionsIgnored` | nv_pstate.c:128 | once an option stops the loop, whatever follows changes neither the result nor the configuration |
| `Options.RefusedValueStored` | nv_pstate.c:97-112 | a `-c`/`-s` whose value has errno set or lies outside [0, 255] ends the loop with -1, and its cast value is still stored |
| `Options.FieldsChangeOnlyByOwnOption` | nv_pstate.c:97-115 | card changes only through `-c`, pstate only through `-s`, verbose only through `-V` and only ever to 1, the path never; a repeated `-c`/`-s` leaves the last value |
| `Options.ParsedFromInitial` | nv_pstate.c:184-188 | from main's initial card -1, pstate -1, verbose 0, a successful parse leaves card and pstate in [-1, 255] and verbose in {0, 1}, each set exactly when its option occurs |
| `NvPstate.Config.constructor` | nv_pstate.c:184 | the memset configuration is all zero with an empty path |
| `NvPstate.GetCmdlineOpts` | nv_pstate.c:73-131 | the loop returns and leaves the configuration exactly as `Options.Parse` describes it |
| `NvPstate.Snprintf` | nv_pstate.c:147 | snprintf returns the full output length, stores the part that fits followed by a NUL, and leaves the buffer after that NUL unchanged |
| `NvPstate.WritePstate` | nv_pstate.c:133-173 | a negative pstate returns -1 with nothing opened; otherwise the path is opened; after a failed open -1 is returned without write or close; after a successful one the digits, NUL, NUL are written, the descriptor is closed, and the result is 0 exactly when write() returned at least that many bytes, else -1 |
| `NvPstate.Run` | nv_pstate.c:175-206 | main returns the parse result when it is 1 or -1, 0 when no card was given, and otherwise write_pstate's result on the path derived from the card; the file is opened exactly when parsing returned 0, a card was given and the pstate is set |
| `NvPstate.CardThreePstateFifteen` | nv_pstate.c:188-197 | `-c 3 -s 15` parses to card 3 and pstate 15, whose path is `/sys/kernel/debug/dri/3/pstate` and whose payload is `'f', NUL, NUL` |
| `NvPstate.HelpFirst` | nv_pstate.c:116-128 | help or version as the first option makes parsing return 1 with the configuration untouched, whatever follows (with `Run`'s postcondition, main then returns 1 and touches no file) |
| `NvPstate.PstateWithoutCard` | nv_pstate.c:97-130 | `-s 5` alone parses with result 0, pstate 5 and card -1 |
| `NvPstate.RunCardThreePstateFifteen` | nv_pstate.c:175-206 | main on `-c 3 -s 15` opens `/sys/kernel/debug/dri/3/pstate`; after a successful open it writes `'f', NUL, NUL`, closes, and returns 0 exactly when write() returned at least 3, else -1; after a failed open it returns -1 with no write and no close |
| `NvPstate.RunPstateWithoutCard` | nv_pstate.c:194-205 | main on `-s 5` alone returns 0 and touches no file, despite printing its missing-parameters message |

## Left out

- getopt_long's scanning of the argument vector is library code. Its results are the input
  tokens. `'?'` stands for an unknown option or a missing argument. The long option names,
  padded with spaces, match only through getopt's prefix matching, and that is not modelled.
- strtol with base 0 is library code. Its value and errno flag are inputs. The end pointer is
  never checked, so trailing text is accepted; the model adds no such check.
- open, write, close, errno and strerror are operating-system calls. They are the `Io` input
  and the `Effects` output. close()'s result is ignored in the code and is not modelled.
- All printed text is console output only and is not modelled: the usage text, the version
  string with its build stamp, `cfg_print`'s dump (including main's verbose dump at `exit`),
  the error messages and the verbose confirmation line.
- main's process exit status is the low 8 bits of the returned value. The model stops at the
  returned value.
- The suid bit and privilege handling are a deployment matter, not logic.
- NvPstate.WritePstate: requires a pstate below 16^6. For larger values the `"%x%c"` output
  no longer fits `str_pstate`, and `slen + 1` bytes would be read past its end, which is
  undefined in C. main only calls it with a pstate of at most 255 (`Options.ParsedFromInitial`).
- NvPstate.WritePstate: the `slen < 1` failure branch of write_pstate is not modelled as a
  branch. snprintf returns at least 2 there, and the method asserts `slen >= 1`.
