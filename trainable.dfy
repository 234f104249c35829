/**
 * The command-line tokenizer of the training harness: `MiniArgParser`.
 *
 * The parser reads an argument vector (the program name first), records
 * the action (the second element), then walks the remaining tokens left
 * to right, collecting `-name value` pairs into an ordered list of options
 * until a token does not qualify; everything from that token on is kept,
 * verbatim, as the unparsed remainder.
 *
 * The process argument vector is an explicit parameter here.
 */
module Trainable {

  /** One recorded option: the `(name, value)` pair the parser appends. */
  datatype OptionPair = OptionPair(name: string, value: string)

  /** The outcome of scanning options from some index: the options found, and
      the index of the first token that was not consumed. */
  datatype Scan = Scan(options: seq<OptionPair>, stop: nat)

  /** The abstract outcome of one parse of a full argument vector. */
  datatype Parsed = Parsed(action: string, options: seq<OptionPair>, unparsed: seq<string>)

  /** `s.startswith(p)`: s is p followed by some text. */
  predicate StartsWith(s: string, p: string): (b: bool)
    ensures b <==> exists q :: s == p + q
  {
    assert |p| <= |s| && s[..|p|] == p ==> s == p + s[|p|..];
    |p| <= |s| && s[..|p|] == p
  }

  /** The token test of the short-option branch: at least two characters,
      a leading '-', and a second character that is not '-'. In prefix terms:
      a token of two or more characters that starts with "-" but not with "--". */
  predicate IsShortOptionToken(cur: string): (b: bool)
    ensures b <==> |cur| >= 2 && StartsWith(cur, "-") && !StartsWith(cur, "--")
  {
    |cur| >= 2 && cur[0] == '-' && cur[1] != '-'
  }

  /** Whether a token sequence starts with a short option that has a value
      after it, i.e. whether the parser consumes its first two tokens. */
  predicate BeginsWithOption(ts: seq<string>) {
    |ts| >= 2 && IsShortOptionToken(ts[0])
  }

  /** A name the short-option branch can record: what follows the leading '-'. */
  predicate IsOptionName(n: string) {
    |n| >= 1 && n[0] != '-'
  }

  /** The tokens a list of options is read from: `-name value` for each, in order. */
  function Flatten(opts: seq<OptionPair>): (r: seq<string>)
    ensures |r| == 2 * |opts|
  {
    if opts == [] then [] else ["-" + opts[0].name, opts[0].value] + Flatten(opts[1..])
  }

  lemma {:induction false} FlattenAt(opts: seq<OptionPair>, k: nat)
    requires k < |opts|
    ensures Flatten(opts)[2 * k] == "-" + opts[k].name
    ensures Flatten(opts)[2 * k + 1] == opts[k].value
  {
    if k > 0 {
      FlattenAt(opts[1..], k - 1);
    }
  }

  lemma {:induction false} FlattenAppend(opts: seq<OptionPair>, o: OptionPair)
    ensures Flatten(opts + [o]) == Flatten(opts) + ["-" + o.name, o.value]
  {
    if opts != [] {
      assert (opts + [o])[1..] == opts[1..] + [o];
      FlattenAppend(opts[1..], o);
    } else {
      assert opts + [o] == [o];
    }
  }

  /**
   * The loop of `parse`, read as a function of the index it starts from:
   * consume `-name value` pairs while the current token is a short option
   * with a following token, and stop at the first one that is not.
   */
  function ScanOptions(argv: seq<string>, i: nat): (r: Scan)
    requires i <= |argv|
    ensures i <= r.stop <= |argv|
    ensures r.stop == i + 2 * |r.options|
    ensures !BeginsWithOption(argv[r.stop..])
    decreases |argv| - i
  {
    if BeginsWithOption(argv[i..]) then
      var rest := ScanOptions(argv, i + 2);
      Scan([OptionPair(argv[i][1..], argv[i + 1])] + rest.options, rest.stop)
    else
      Scan([], i)
  }

  /** The tokens the option loop consumes are exactly its options, written out. */
  lemma {:induction false} ScanCovers(argv: seq<string>, i: nat)
    requires i <= |argv|
    ensures argv[i..ScanOptions(argv, i).stop] == Flatten(ScanOptions(argv, i).options)
    decreases |argv| - i
  {
    if BeginsWithOption(argv[i..]) {
      var r := ScanOptions(argv, i);
      var o := OptionPair(argv[i][1..], argv[i + 1]);
      ScanCovers(argv, i + 2);
      assert "-" + o.name == argv[i];
      assert r.options == [o] + ScanOptions(argv, i + 2).options;
      assert r.options[1..] == ScanOptions(argv, i + 2).options;
      assert argv[i..r.stop] == [argv[i], argv[i + 1]] + argv[i + 2..r.stop];
    }
  }

  /** One step of the option loop: a qualifying token and its value are taken. */
  lemma ScanStep(argv: seq<string>, i: nat)
    requires i <= |argv|
    requires BeginsWithOption(argv[i..])
    ensures ScanOptions(argv, i).options
            == [OptionPair(argv[i][1..], argv[i + 1])] + ScanOptions(argv, i + 2).options
    ensures ScanOptions(argv, i).stop == ScanOptions(argv, i + 2).stop
  {
  }

  /**
   * `parse` on a fresh parser: the early return for a vector holding only the
   * program name, otherwise the action and the result of the option loop.
   */
  function ParseArgs(argv: seq<string>): (r: Parsed)
    requires |argv| >= 1
    ensures |argv| == 1 ==> r == Parsed("", [], [])
    ensures |argv| >= 2 ==> r.action == argv[1]
    ensures |argv| >= 2 ==>
              2 + 2 * |r.options| <= |argv| && r.unparsed == argv[2 + 2 * |r.options|..]
    ensures !BeginsWithOption(r.unparsed)
  {
    if |argv| == 1 then
      Parsed("", [], [])
    else
      var s := ScanOptions(argv, 2);
      Parsed(argv[1], s.options, argv[s.stop..])
  }

  /** The parse covers the input: the tokens after the action are the options,
      written out in order, followed by the remainder. */
  lemma ParseCovers(argv: seq<string>)
    requires |argv| >= 2
    ensures argv[2..] == Flatten(ParseArgs(argv).options) + ParseArgs(argv).unparsed
  {
    var s := ScanOptions(argv, 2);
    ScanCovers(argv, 2);
    assert argv[2..] == argv[2..s.stop] + argv[s.stop..];
  }

  /** Every name the option loop records is non-empty and does not start with '-'. */
  lemma {:induction false} ScanNamesWellFormed(argv: seq<string>, i: nat)
    requires i <= |argv|
    ensures forall k :: 0 <= k < |ScanOptions(argv, i).options| ==>
              IsOptionName(ScanOptions(argv, i).options[k].name)
    decreases |argv| - i
  {
    if BeginsWithOption(argv[i..]) {
      ScanNamesWellFormed(argv, i + 2);
    }
  }

  /**
   * Option k of a parse was read from the tokens at positions 2 + 2k and
   * 3 + 2k, and the first of them passed the short-option test; so options
   * appear in input order and a repeated name yields a second entry.
   */
  lemma ParseOptionAt(argv: seq<string>, k: nat)
    requires |argv| >= 2
    requires k < |ParseArgs(argv).options|
    ensures 3 + 2 * k < |argv|
    ensures argv[2 + 2 * k] == "-" + ParseArgs(argv).options[k].name
    ensures argv[3 + 2 * k] == ParseArgs(argv).options[k].value
    ensures IsShortOptionToken(argv[2 + 2 * k])
  {
    var r := ParseArgs(argv);
    ParseCovers(argv);
    FlattenAt(r.options, k);
    ScanNamesWellFormed(argv, 2);
    assert argv[2..][2 * k] == Flatten(r.options)[2 * k];
    assert argv[2..][2 * k + 1] == Flatten(r.options)[2 * k + 1];
  }

  /** Every token count is accounted for: two per option plus the remainder. */
  lemma ParseCounts(argv: seq<string>)
    requires |argv| >= 2
    ensures |argv| - 2 == 2 * |ParseArgs(argv).options| + |ParseArgs(argv).unparsed|
  {
  }

  /**
   * Why parsing stopped: the first unparsed token is a lone token with
   * nothing after it, or is shorter than two characters, or does not start
   * with '-', or starts with "--" (a long option, never recorded as an option).
   */
  lemma ParseStopToken(argv: seq<string>)
    requires |argv| >= 2
    requires ParseArgs(argv).unparsed != []
    ensures var t := ParseArgs(argv).unparsed[0];
            |ParseArgs(argv).unparsed| == 1 || |t| < 2 || t[0] != '-' || StartsWith(t, "--")
  {
  }

  /** No recorded option came from a long-option token. */
  lemma ParseNeverRecordsLongOption(argv: seq<string>, k: nat)
    requires |argv| >= 2
    requires k < |ParseArgs(argv).options|
    ensures !StartsWith(argv[2 + 2 * k], "--")
  {
    ParseOptionAt(argv, k);
  }

  /**
   * The option loop recovers any list of well-formed options written out as
   * tokens, provided the tokens after them do not begin another option.
   */
  lemma {:induction false} ScanRecovers(argv: seq<string>, i: nat, opts: seq<OptionPair>)
    requires i + 2 * |opts| <= |argv|
    requires argv[i..i + 2 * |opts|] == Flatten(opts)
    requires forall k :: 0 <= k < |opts| ==> IsOptionName(opts[k].name)
    requires !BeginsWithOption(argv[i + 2 * |opts|..])
    ensures ScanOptions(argv, i) == Scan(opts, i + 2 * |opts|)
    decreases |opts|
  {
    if opts != [] {
      var o := opts[0];
      FlattenAt(opts, 0);
      assert argv[i] == argv[i..i + 2 * |opts|][0] == "-" + o.name;
      assert argv[i + 1] == argv[i..i + 2 * |opts|][1] == o.value;
      assert argv[i][1..] == o.name;
      assert BeginsWithOption(argv[i..]);
      assert argv[i + 2..i + 2 + 2 * |opts[1..]|] == argv[i..i + 2 * |opts|][2..];
      ScanRecovers(argv, i + 2, opts[1..]);
      assert opts == [o] + opts[1..];
    } else {
      assert !BeginsWithOption(argv[i..]);
    }
  }

  /**
   * Parsing inverts writing out: program name, action, the options as
   * `-name value` tokens and a remainder that does not begin with an option
   * parse back to exactly that action, those options and that remainder.
   */
  lemma ParseRoundTrip(prog: string, action: string, opts: seq<OptionPair>, rest: seq<string>)
    requires forall k :: 0 <= k < |opts| ==> IsOptionName(opts[k].name)
    requires !BeginsWithOption(rest)
    ensures ParseArgs([prog, action] + Flatten(opts) + rest) == Parsed(action, opts, rest)
  {
    var argv := [prog, action] + Flatten(opts) + rest;
    assert argv[2..2 + 2 * |opts|] == Flatten(opts);
    assert argv[2 + 2 * |opts|..] == rest;
    ScanRecovers(argv, 2, opts);
  }

  /** A repeated option name is recorded twice, in input order. */
  lemma DuplicatesKept()
    ensures ParseArgs(["prog", "train", "-a", "1", "-a", "2"]).options
            == [OptionPair("a", "1"), OptionPair("a", "2")]
  {
  }

  /** A long option stops parsing at once and lands in the remainder. */
  lemma LongOptionIsUnparsed(prog: string, action: string, name: string, rest: seq<string>)
    ensures ParseArgs([prog, action, "--" + name] + rest)
            == Parsed(action, [], ["--" + name] + rest)
  {
  }

  // Find and LongOption describe the long-option branch of the loop. That branch
  // cannot run (LongBranchUnreachable), so MiniArgParser.Parse does not use them.

  /** `s.find(c)`: the index of the first occurrence of c in s, or -1. */
  function Find(s: string, c: char): (r: int)
    ensures -1 <= r < |s|
    ensures r == -1 <==> c !in s
    ensures r >= 0 ==> s[r] == c && c !in s[..r]
  {
    if s == [] then -1
    else if s[0] == c then 0
    else
      var k := Find(s[1..], c);
      assert s == [s[0]] + s[1..];
      if k == -1 then -1
      else
        assert s[..k + 1] == [s[0]] + s[1..][..k];
        k + 1
  }

  /**
   * What the long-option branch would record for a token starting with
   * "--": the text up to the first '=' and the text after it, or the whole
   * rest of the token with an empty value when there is no '='.
   */
  function LongOption(cur: string): (r: OptionPair)
    requires StartsWith(cur, "--")
    ensures '=' !in r.name
    ensures '=' in cur ==> cur == "--" + r.name + "=" + r.value
    ensures '=' !in cur ==> cur == "--" + r.name && r.value == ""
  {
    var eq := Find(cur, '=');
    assert cur[0] == cur[..2][0] == '-' && cur[1] == cur[..2][1] == '-';
    if eq >= 0 then
      assert eq >= 2;
      assert cur == cur[..eq] + cur[eq..];
      assert cur[..eq] == cur[..2] + cur[2..eq];
      assert cur[eq..] == [cur[eq]] + cur[eq + 1..];
      assert forall j :: 0 <= j < eq - 2 ==> cur[2..eq][j] == cur[..eq][j + 2];
      OptionPair(cur[2..eq], cur[eq + 1..])
    else
      assert cur == cur[..2] + cur[2..];
      assert forall j :: 0 <= j < |cur| - 2 ==> cur[2..][j] == cur[j + 2];
      OptionPair(cur[2..], "")
  }

  /**
   * The long-option branch is guarded by "fewer than two characters and
   * starts with '--'", which no token satisfies.
   */
  lemma LongBranchUnreachable(cur: string)
    ensures !(|cur| < 2 && StartsWith(cur, "--"))
  {
  }

  // Steps of the proof that MiniArgParser.Parse computes ParseArgs.

  /** The tokens consumed so far are the options taken so far, written out. */
  lemma TakenStep(argv: seq<string>, i: nat, taken: seq<OptionPair>)
    requires 2 <= i <= |argv|
    requires BeginsWithOption(argv[i..])
    requires argv[2..i] == Flatten(taken)
    ensures argv[2..i + 2] == Flatten(taken + [OptionPair(argv[i][1..], argv[i + 1])])
  {
    var o := OptionPair(argv[i][1..], argv[i + 1]);
    assert "-" + o.name == argv[i];
    FlattenAppend(taken, o);
    assert argv[2..i + 2] == argv[2..i] + [argv[i], argv[i + 1]];
  }

  /** What is left to scan after i, prefixed by the options taken, is the whole scan. */
  lemma RemainingStep(argv: seq<string>, i: nat, taken: seq<OptionPair>)
    requires 2 <= i <= |argv|
    requires BeginsWithOption(argv[i..])
    requires ScanOptions(argv, 2)
             == Scan(taken + ScanOptions(argv, i).options, ScanOptions(argv, i).stop)
    ensures ScanOptions(argv, 2)
            == Scan((taken + [OptionPair(argv[i][1..], argv[i + 1])]) + ScanOptions(argv, i + 2).options,
                    ScanOptions(argv, i + 2).stop)
  {
    var o := OptionPair(argv[i][1..], argv[i + 1]);
    var rest := ScanOptions(argv, i + 2);
    ScanStep(argv, i);
    assert taken + ([o] + rest.options) == (taken + [o]) + rest.options;
  }

  /** The loop's token test, read on the argument vector at index i. */
  lemma TakesOptionAt(argv: seq<string>, i: nat)
    requires i < |argv|
    ensures BeginsWithOption(argv[i..]) <==> i + 1 < |argv| && IsShortOptionToken(argv[i])
  {
  }

  /** When the loop stops at i, the fields hold what ParseArgs describes. */
  lemma ParseFromLoop(argv: seq<string>, i: nat, taken: seq<OptionPair>)
    requires 2 <= i <= |argv|
    requires ScanOptions(argv, 2)
             == Scan(taken + ScanOptions(argv, i).options, ScanOptions(argv, i).stop)
    requires !BeginsWithOption(argv[i..])
    ensures ParseArgs(argv) == Parsed(argv[1], taken, argv[i..])
  {
  }

  /** The parser object: its fields are filled in place by Parse. */
  class MiniArgParser {
    var action: string
    var options: seq<OptionPair>
    var unparsed: seq<string>

    constructor ()
      ensures action == "" && options == [] && unparsed == []
    {
      action := "";
      options := [];
      unparsed := [];
    }

    /**
     * Parse an argument vector whose first element is the program name.
     * A vector holding only that name changes nothing; otherwise the action
     * is replaced, the options found are appended to those already held,
     * and the remainder is replaced.
     */
    method Parse(argv: seq<string>)
      requires |argv| >= 1
      modifies this
      ensures |argv| == 1 ==>
                action == old(action) && options == old(options) && unparsed == old(unparsed)
      ensures |argv| >= 2 ==>
                && action == ParseArgs(argv).action
                && options == old(options) + ParseArgs(argv).options
                && unparsed == ParseArgs(argv).unparsed
    {
      var numArgs := |argv|;
      if numArgs == 1 {
        return;
      }
      action := argv[1];
      var i := 2;
      ghost var taken: seq<OptionPair> := [];
      while i < numArgs
        invariant 2 <= i <= numArgs
        invariant action == argv[1]
        invariant options == old(options) + taken
        invariant argv[2..i] == Flatten(taken)
        invariant ScanOptions(argv, 2)
                  == Scan(taken + ScanOptions(argv, i).options, ScanOptions(argv, i).stop)
        decreases numArgs - i
      {
        var cur := argv[i];
        TakesOptionAt(argv, i);
        if |cur| >= 2 {
          if cur[0] == '-' && cur[1] != '-' && i + 1 < numArgs {
            var optionName := cur[1..];
            var optionValue := argv[i + 1];
            ghost var o := OptionPair(optionName, optionValue);
            TakenStep(argv, i, taken);
            RemainingStep(argv, i, taken);
            options := options + [OptionPair(optionName, optionValue)];
            taken := taken + [o];
            i := i + 2;
            continue;
          }
        } else if StartsWith(cur, "--") {
          // The long-option branch: its guard contradicts |cur| < 2.
          assert false;
        }
        break;
      }
      assert i < numArgs ==> !BeginsWithOption(argv[i..]);
      ParseFromLoop(argv, i, taken);
      unparsed := argv[i..];
    }
  }
}
