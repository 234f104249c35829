# MiniArgParser: a verified model of the harness's command-line tokenizer

The training harness (`trainable.py`) reads its command line through a small
parser object, `MiniArgParser`. Its `parse` method takes the argument vector
(program name first). It stores the second element as the `action`. It then
walks the remaining tokens left to right. Each `-name value` pair is appended
to an ordered list of `options`. The first token that does not start such a
pair ends the walk, and it and every token after it are kept verbatim as
`unparsed`.

`trainable.dfy` (module `Trainable`) models this:

- `MiniArgParser` is a class with the three fields. `Parse` is a method with
  the source's `while` loop. It is proved against the pure specification
  `ParseArgs`.
- `ScanOptions` is the loop read as a function of the index it starts from.
  `ParseArgs` is `parse` on a fresh object.
- Lemmas state the properties of that specification. The tokens after the
  action are the options written out, followed by the remainder (`ParseCovers`,
  `ParseCounts`). Option k came from positions 2+2k and 3+2k (`ParseOptionAt`).
  Parsing stops exactly where the next token is not a short option with a
  value: every consumed token passed the test and had a value after it
  (`ParseOptionAt`), and the token it stops at fails it (`ParseStopToken`).
  Options whose names are non-empty and do not start with `-`, written out and
  followed by a remainder that does not begin with an option, parse back to the
  same action, options and remainder (`ParseRoundTrip`).

The process argument vector, which the source reads from `sys.argv`, is an
explicit `argv: seq<string>` parameter. `Parse` requires `|argv| >= 1`,
because the source indexes `argv[1]` and would raise on an empty vector.

What the code does, as opposed to what its shape suggests:

- The `elif cur.startswith('--')` branch (trainable.py:42) belongs to the test
  `len(cur) >= 2` (trainable.py:35), not to the short-option test. It only runs
  for tokens shorter than two characters, and no such token starts with `--`.
  So long options (`--x`, `--x=v`) are never recorded as options. A long-option
  token where an option name is expected stops the walk and lands in
  `unparsed` (`ParseNeverRecordsLongOption`, `LongOptionIsUnparsed`). As the
  value of a short option it is taken verbatim, since trainable.py:38 reads
  the next token without testing it. In `Parse` this branch is an `assert false`, and
  `LongBranchUnreachable` proves its guard cannot hold. What the branch would
  record is kept as the function `LongOption`, with `Find` for `str.find`.
  Neither is used by `Parse`.
- `argv[1]` is the action and the option walk starts at `argv[2]`; no other
  positional is read. Options are a list in input order with duplicates kept
  (`DuplicatesKept`), not a map.
- `parse` appends to `self.options` without clearing it first. So a second
  call on the same object accumulates options. `Parse`'s postcondition says so
  (`options == old(options) + ...`). A vector holding only the program name
  returns early and changes no field.

## Model

| member | source | states |
|---|---|---|
| `Trainable.MiniArgParser.constructor` | trainable.py:20-23 | A new parser has an empty action, no options and an empty remainder. |
| `Trainable.MiniArgParser.Parse` | trainable.py:25-54 | With only the program name, no field changes. Otherwise the action becomes `argv[1]`, the options found are appended to those already held, and the remainder becomes the unparsed suffix, all as `ParseArgs` describes. The loop keeps `2 <= i <= |argv|`, keeps the consumed tokens equal to the options taken written out, and advances by 2 per option. |
| `Trainable.ScanOptions` | trainable.py:31-53 | Scanning from index i stops at an index between i and the end of the vector. It consumes exactly two tokens per option. The token sequence at the stop index does not begin with a short option that has a value. |
| `Trainable.ScanCovers` | trainable.py:33-41 | The tokens the scan consumes are exactly its options, each written out as `-name value`, in order. |
| `Trainable.ScanNamesWellFormed` | trainable.py:36-37 | Every option name the scan records is non-empty and does not start with `-`. |
| `Trainable.ParseArgs` | trainable.py:27-54 | With only the program name, the result is all empty. Otherwise the action is `argv[1]`, with no check of its content. The remainder is the suffix of `argv` that starts after the tokens the options used. The remainder never begins with a short option that has a value. |
| `Trainable.ParseCovers` | trainable.py:31-54 | `argv[2..]` equals the options written out as `-name value`, in order, followed by the remainder. |
| `Trainable.ParseCounts` | trainable.py:31-54 | `|argv| - 2 == 2 * |options| + |unparsed|`. |
| `Trainable.ParseOptionAt` | trainable.py:35-40 | Option k was read from the token at position 2+2k, which passed the short-option test and is `-` followed by the name, and from the token at 3+2k, which is the value. Options are in input order, and a repeated name gives a second entry. |
| `Trainable.ParseStopToken` | trainable.py:33-54 | When the remainder is non-empty, its first token is the last token of the vector, is shorter than two characters, does not start with `-`, or starts with `--`. |
| `Trainable.ParseNeverRecordsLongOption` | trainable.py:35-52 | No recorded option came from a token starting with `--`. |
| `Trainable.ScanRecovers` | trainable.py:33-53 | Scanning from index i recovers any list of options with well-formed names that is written out at i, when the tokens after it do not begin another option. |
| `Trainable.ParseRoundTrip` | trainable.py:25-54 | Parsing the program name, an action, options written out as `-name value` and a remainder that does not begin with an option gives back exactly that action, those options and that remainder. |
| `Trainable.DuplicatesKept` | trainable.py:39 | `prog train -a 1 -a 2` records both `(a, 1)` and `(a, 2)`, in that order. Nothing is overwritten. |
| `Trainable.LongOptionIsUnparsed` | trainable.py:35-54 | A `--name` token right after the action records no option. It and everything after it become the remainder. |
| `Trainable.LongBranchUnreachable` | trainable.py:35-42 | No token satisfies the long-option branch's guard, which is "shorter than two characters and starts with `--`". |
| `Trainable.StartsWith` | trainable.py:42 | `s.startswith(p)`: holds exactly when s is p followed by some text. |
| `Trainable.IsShortOptionToken` | trainable.py:35-36 | The short-option token test holds exactly for a token of at least two characters that starts with `-` but not with `--`. |
| `Trainable.Find` | trainable.py:43 | `str.find`: gives -1 exactly when the character does not occur. Otherwise it gives the index of its first occurrence. |
| `Trainable.LongOption` | trainable.py:43-49 | For a token starting with `--`, the name holds no `=`. With an `=`, the token is `--name=value`. Without one, the token is `--name` and the value is empty. |

## Left out

- Trainable.MiniArgParser.Parse: requires a non-empty argument vector, so it does not model the IndexError that trainable.py:30 raises when `argv[1]` is read from an empty vector (the process argument vector always holds the program name).
- The `print` of the parse result (trainable.py:56): console output only. No field changes.
- The `__main__` block (trainable.py:60-63) and the implicit read of `sys.argv`: process plumbing. The argument vector is a parameter instead.
- `TrainableBase` (trainable.py:6-17): every method is `pass`.
- `my_trainable.py` and `my_trainable_qa.py`: demo subclasses that print and return constant application names. Their constructors pass an argument that `TrainableBase.__init__` does not accept.
- Run logging, timestamps, run identifiers, file fingerprints and version-control capture: none of these appears in trainable.py, my_trainable.py or my_trainable_qa.py; `TrainableBase.log_all` (trainable.py:13-14) is a `pass` stub.
- The long-option branch's effect in the loop: it cannot run, so `Parse` does not perform it. `LongOption` gives what it would compute.
