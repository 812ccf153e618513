/**
 * The substitution table: `read_replace_instructions` turns the lines of a text
 * resource into a map from a raw value of the second table to its replacement.
 * The file itself is not read here; the model receives its lines.
 */
module Substitution {
  import opened Wrappers
  import opened Errors
  import opened Text

  /** What one line contributes. */
  datatype LineOutcome =
    | Skip                                 // no '=' anywhere in the line
    | Pair(original: string, replacement: string)       // exactly one '='
    | TooManyValues                        // two or more '=': unpacking into two names fails

  /** One line: if it holds '=', the stripped line is split on '=' and unpacked into two names. */
  function ParseLine(line: string): LineOutcome {
    if '=' !in line then Skip
    else
      var parts := Split(Strip(line), '=');
      if |parts| == 2 then Pair(parts[0], parts[1]) else TooManyValues
  }

  /** The outcome of a line is decided by how many '=' it holds, and a pair reassembles the stripped line. */
  lemma ParseLineCases(line: string)
    ensures ParseLine(line) == Skip <==> Count(line, '=') == 0
    ensures ParseLine(line) == TooManyValues <==> Count(line, '=') >= 2
    ensures ParseLine(line).Pair? ==>
      && Count(line, '=') == 1
      && Strip(line) == ParseLine(line).original + "=" + ParseLine(line).replacement
      && '=' !in ParseLine(line).original && '=' !in ParseLine(line).replacement
  {
    StripKeepsCount(line, '=');
    SplitPieces(Strip(line), '=');
    JoinSplit(Strip(line), '=');
  }

  /**
   * The round trip of a substitution line: `o=n`, with `o` and `n` free of '=' and the line free
   * of leading and trailing whitespace before its line break `w`, gives back the pair (`o`, `n`).
   */
  lemma PairRoundTrip(o: string, n: string, w: string)
    requires '=' !in o && '=' !in n
    requires (o == [] || !IsSpace(o[0])) && (n == [] || !IsSpace(n[|n| - 1]))
    requires forall i :: 0 <= i < |w| ==> IsSpace(w[i])
    ensures ParseLine(o + "=" + n + w) == Pair(o, n)
  {
    var s := o + "=" + n;
    assert s[0] == if o == [] then '=' else o[0];
    assert s[|s| - 1] == if n == [] then '=' else n[|n| - 1];
    StripTrimmed(s, w);
    assert Join([o, n], '=') == s;
    SplitJoin([o, n], '=');
    assert (s + w)[|o|] == '=';
  }

  /** The outcome of every line, in order. */
  function Outcomes(lines: seq<string>): (r: seq<LineOutcome>)
    ensures |r| == |lines|
  {
    if lines == [] then [] else Outcomes(lines[..|lines| - 1]) + [ParseLine(lines[|lines| - 1])]
  }

  /** Outcome `i` is that of line `i`. */
  lemma {:induction false} OutcomeAt(lines: seq<string>, i: nat)
    requires i < |lines|
    ensures Outcomes(lines)[i] == ParseLine(lines[i])
  {
    if i < |lines| - 1 {
      var init := lines[..|lines| - 1];
      OutcomeAt(init, i);
    }
  }

  /** Folds the line outcomes into the table, in order, a later pair overwriting an earlier one. */
  function Fill(outcomes: seq<LineOutcome>): Result<map<string, string>, Error> {
    if outcomes == [] then Success(map[])
    else
      var last := |outcomes| - 1;
      match Fill(outcomes[..last])
      case Failure(e) => Failure(e)
      case Success(m) =>
        match outcomes[last]
        case Skip => Success(m)
        case Pair(o, n) => Success(m[o := n])
        case TooManyValues => Failure(TooManyValuesToUnpack(last))
  }

  /** The substitution table read from `lines`. */
  function ParseLines(lines: seq<string>): Result<map<string, string>, Error> {
    Fill(Outcomes(lines))
  }

  /** The loop of `read_replace_instructions`, stopping at the first line that cannot be unpacked. */
  method ReadReplaceInstructions(lines: seq<string>) returns (r: Result<map<string, string>, Error>)
    ensures r == ParseLines(lines)
  {
    var replace: map<string, string> := map[];
    var i := 0;
    while i < |lines|
      invariant 0 <= i <= |lines|
      invariant Fill(Outcomes(lines)[..i]) == Success(replace)
    {
      var line := lines[i];
      assert Outcomes(lines)[..i + 1][..i] == Outcomes(lines)[..i];
      OutcomeAt(lines, i);
      if '=' in line {
        var parts := Split(Strip(line), '=');
        if |parts| != 2 {
          FailureSticks(Outcomes(lines), i + 1);
          return Failure(TooManyValuesToUnpack(i));
        }
        replace := replace[parts[0] := parts[1]];
      }
      i := i + 1;
    }
    assert Outcomes(lines)[..i] == Outcomes(lines);
    return Success(replace);
  }

  /** Once a prefix of the outcomes fails, the whole of them fails the same way. */
  lemma {:induction false} FailureSticks(outcomes: seq<LineOutcome>, k: nat)
    requires k <= |outcomes|
    requires Fill(outcomes[..k]).Failure?
    ensures Fill(outcomes) == Fill(outcomes[..k])
  {
    if k < |outcomes| {
      var shorter := outcomes[..|outcomes| - 1];
      assert shorter[..k] == outcomes[..k];
      FailureSticks(shorter, k);
    } else {
      assert outcomes[..k] == outcomes;
    }
  }

  /** Parsing fails exactly when some line cannot be unpacked, and the error names the first such line. */
  lemma {:induction false} FillFailsAtFirstBadLine(outcomes: seq<LineOutcome>)
    ensures Fill(outcomes).Success? <==> forall k :: 0 <= k < |outcomes| ==> !outcomes[k].TooManyValues?
    ensures Fill(outcomes).Failure? ==>
      && Fill(outcomes).error.TooManyValuesToUnpack?
      && var k := Fill(outcomes).error.line;
      && k < |outcomes| && outcomes[k].TooManyValues?
      && forall j :: 0 <= j < k ==> !outcomes[j].TooManyValues?
  {
    if outcomes != [] {
      var last := |outcomes| - 1;
      FillFailsAtFirstBadLine(outcomes[..last]);
    }
  }

  /**
   * Parsing fails exactly when some line holds two or more '=', and the error names the
   * first such line.
   */
  lemma ParseFailsAtFirstBadLine(lines: seq<string>)
    ensures ParseLines(lines).Failure? <==> exists k :: 0 <= k < |lines| && Count(lines[k], '=') >= 2
    ensures ParseLines(lines).Failure? ==>
      && ParseLines(lines).error.TooManyValuesToUnpack?
      && var k := ParseLines(lines).error.line;
      && k < |lines| && Count(lines[k], '=') >= 2
      && forall j :: 0 <= j < k ==> Count(lines[j], '=') < 2
  {
    var outcomes := Outcomes(lines);
    FillFailsAtFirstBadLine(outcomes);
    forall k | 0 <= k < |lines| ensures outcomes[k].TooManyValues? <==> Count(lines[k], '=') >= 2 {
      ParseLineCases(lines[k]);
      OutcomeAt(lines, k);
    }
  }

  /** Outcome `j` is a pair whose original text is `o`. */
  predicate Defines(outcomes: seq<LineOutcome>, j: int, o: string) {
    0 <= j < |outcomes| && outcomes[j].Pair? && outcomes[j].original == o
  }

  /** A successful fold maps exactly the original texts of the pairs. */
  lemma {:induction false} FilledKeys(outcomes: seq<LineOutcome>)
    requires Fill(outcomes).Success?
    ensures forall o :: o in Fill(outcomes).value <==> exists j :: Defines(outcomes, j, o)
  {
    if outcomes != [] {
      var last := |outcomes| - 1;
      var init := outcomes[..last];
      FilledKeys(init);
      forall o ensures o in Fill(outcomes).value <==> exists j :: Defines(outcomes, j, o) {
        if !Defines(outcomes, last, o) {
          assert o in Fill(outcomes).value <==> o in Fill(init).value;
          if o in Fill(init).value {
            var j :| Defines(init, j, o);
            assert Defines(outcomes, j, o);
          }
          if exists j :: Defines(outcomes, j, o) {
            var j :| Defines(outcomes, j, o);
            assert Defines(init, j, o);
          }
        }
      }
    }
  }

  /** A mapped text goes to the replacement of the LAST pair that defines it. */
  lemma {:induction false} FilledLastWins(outcomes: seq<LineOutcome>, o: string)
    requires Fill(outcomes).Success? && o in Fill(outcomes).value
    ensures exists j :: (Defines(outcomes, j, o) && outcomes[j].replacement == Fill(outcomes).value[o] &&
      (forall j' :: j < j' < |outcomes| ==> !Defines(outcomes, j', o)))
  {
    var last := |outcomes| - 1;
    var init := outcomes[..last];
    var m := Fill(init).value;
    if Defines(outcomes, last, o) {
      assert Defines(outcomes, last, o) && outcomes[last].replacement == Fill(outcomes).value[o];
    } else {
      assert o in m && Fill(outcomes).value[o] == m[o];
      FilledLastWins(init, o);
      var j :| Defines(init, j, o) && init[j].replacement == m[o] &&
        (forall j' :: j < j' < |init| ==> !Defines(init, j', o));
      assert Defines(outcomes, j, o) && outcomes[j].replacement == Fill(outcomes).value[o];
      forall j' | j < j' < |outcomes| ensures !Defines(outcomes, j', o) {
        if j' < last {
          assert !Defines(init, j', o);
        }
      }
    }
  }

  /** Line `j` pairs `o` with some replacement. */
  predicate PairsAt(lines: seq<string>, j: int, o: string) {
    0 <= j < |lines| && ParseLine(lines[j]).Pair? && ParseLine(lines[j]).original == o
  }

  /**
   * The table read from the lines maps exactly the texts some line pairs, each to the
   * replacement on the last line that pairs it: a later line overwrites an earlier one.
   */
  lemma ParsedEntries(lines: seq<string>, o: string)
    requires ParseLines(lines).Success?
    ensures o in ParseLines(lines).value <==> exists j :: PairsAt(lines, j, o)
    ensures o in ParseLines(lines).value ==> exists j :: (PairsAt(lines, j, o) &&
      ParseLine(lines[j]).replacement == ParseLines(lines).value[o] &&
      (forall j' :: j < j' < |lines| ==> !PairsAt(lines, j', o)))
  {
    var outcomes := Outcomes(lines);
    FilledKeys(outcomes);
    forall j | 0 <= j < |lines| ensures Defines(outcomes, j, o) <==> PairsAt(lines, j, o) {
      OutcomeAt(lines, j);
    }
    if o in ParseLines(lines).value {
      FilledLastWins(outcomes, o);
      var j :| Defines(outcomes, j, o) && outcomes[j].replacement == Fill(outcomes).value[o] &&
        (forall j' :: j < j' < |outcomes| ==> !Defines(outcomes, j', o));
      OutcomeAt(lines, j);
      assert PairsAt(lines, j, o) && ParseLine(lines[j]).replacement == ParseLines(lines).value[o];
    }
  }

  /** A line without '=' may be inserted anywhere without changing the table or the error. */
  lemma {:induction false} LineWithoutEqualsIsIgnored(before: seq<string>, line: string, after: seq<string>)
    requires '=' !in line
    ensures ParseLines(before + [line] + after).Success? == ParseLines(before + after).Success?
    ensures ParseLines(before + [line] + after).Success? ==>
      ParseLines(before + [line] + after) == ParseLines(before + after)
  {
    OutcomesAppend(before + [line], after);
    OutcomesAppend(before, [line]);
    OutcomesAppend(before, after);
    OutcomeAt([line], 0);
    SkipIsIgnored(Outcomes(before), Outcomes(after));
  }

  lemma OutcomesAppend(a: seq<string>, b: seq<string>)
    ensures Outcomes(a + b) == Outcomes(a) + Outcomes(b)
  {
    var x := Outcomes(a + b);
    var y := Outcomes(a) + Outcomes(b);
    forall i | 0 <= i < |x| ensures x[i] == y[i] {
      OutcomeAt(a + b, i);
      if i < |a| {
        assert (a + b)[i] == a[i];
        OutcomeAt(a, i);
      } else {
        assert (a + b)[i] == b[i - |a|];
        OutcomeAt(b, i - |a|);
      }
    }
  }

  lemma {:induction false} SkipIsIgnored(before: seq<LineOutcome>, after: seq<LineOutcome>)
    ensures Fill(before + [Skip] + after).Success? == Fill(before + after).Success?
    ensures Fill(before + [Skip] + after).Success? ==> Fill(before + [Skip] + after) == Fill(before + after)
  {
    var xs := before + [Skip] + after;
    var ys := before + after;
    if after == [] {
      assert xs[..|before|] == before;
      assert ys == before;
    } else {
      var init := after[..|after| - 1];
      SkipIsIgnored(before, init);
      assert xs[..|xs| - 1] == before + [Skip] + init;
      assert ys[..|ys| - 1] == before + init;
    }
  }
}
