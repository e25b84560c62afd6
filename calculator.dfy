/** The two ways the calculator is driven: a column of numbers read from a
    CSV file (app.py:99-105), or text pasted by the user (app.py:141-148).
    Both summarize the numbers and compute Cpk from the summary's mean and
    standard deviation with the limits the user entered (None where the
    user left a limit blank). */
module Calculator {
  import opened Numbers
  import opened Tokenizer
  import opened Statistics
  import opened Capability

  /** `pd.to_numeric(tokens, errors="coerce")`: every token converted on its
      own by the number parser `parse`, a failure giving None (NaN). */
  function Convert(tokens: seq<string>, parse: string -> Num): (values: seq<Num>)
    ensures |values| == |tokens|
    ensures forall i :: 0 <= i < |tokens| ==> values[i] == parse(tokens[i])
  {
    seq(|tokens|, i requires 0 <= i < |tokens| => parse(tokens[i]))
  }

  /** The tokens the parser accepts, as numbers, in order. */
  function Parsed(tokens: seq<string>, parse: string -> Num): seq<real>
  {
    if tokens == [] then []
    else
      var v := parse(tokens[0]);
      (if v.Some? then [v.value] else []) + Parsed(tokens[1..], parse)
  }

  /** Converting and then dropping the failures keeps exactly the tokens
      the parser accepts, in their order. */
  lemma {:induction false} PresentAfterConvert(tokens: seq<string>, parse: string -> Num)
    ensures Present(Convert(tokens, parse)) == Parsed(tokens, parse)
    decreases |tokens|
  {
    if tokens != [] {
      assert Convert(tokens, parse)[1..] == Convert(tokens[1..], parse);
      PresentAfterConvert(tokens[1..], parse);
    }
  }

  /** Summary and Cpk of a column of measurements: `summarize(values)`,
      then `compute_cpk` of its mean and std. */
  method Analyze(values: seq<Num>, usl: Num, lsl: Num, sqrt: real -> real) returns (stats: Summary, cpk: Num)
    ensures stats == Summarize(values, sqrt)
    ensures cpk == CapabilityIndex(stats.mean, stats.std, usl, lsl)
    ensures stats.count < 2 ==> cpk.None?
    ensures usl.None? && lsl.None? ==> cpk.None?
    ensures IsSquareRoot(sqrt) ==>
              (cpk.Some? <==> stats.count >= 2 && !AllEqual(Present(values)) && (usl.Some? || lsl.Some?))
  {
    stats := Summarize(values, sqrt);
    cpk := ComputeCpk(stats.mean, stats.std, usl, lsl);
    if IsSquareRoot(sqrt) && stats.count >= 2 {
      SummarizeSpread(values, sqrt);
    }
  }

  /** The free-text path: tokenize the pasted text, convert the tokens,
      then summarize and compute Cpk as for a column. */
  method AnalyzeText(text: string, parse: string -> Num, usl: Num, lsl: Num, sqrt: real -> real)
    returns (tokens: seq<string>, stats: Summary, cpk: Num)
    ensures tokens == Tokens(text)
    ensures stats == Summarize(Convert(tokens, parse), sqrt)
    ensures stats.count == |Parsed(tokens, parse)| <= |tokens|
    ensures cpk == CapabilityIndex(stats.mean, stats.std, usl, lsl)
    ensures IsSquareRoot(sqrt) ==>
              (cpk.Some? <==> stats.count >= 2 && !AllEqual(Parsed(tokens, parse)) && (usl.Some? || lsl.Some?))
  {
    tokens := Tokens(text);
    var values := Convert(tokens, parse);
    stats, cpk := Analyze(values, usl, lsl, sqrt);
    PresentAfterConvert(tokens, parse);
  }
}
