/**
  How `killPid` reads the answer of `pgrep -P <pid>`: the standard output is trimmed,
  split into lines, each line goes through `parseInt(line, 10)`, and the lines that
  come out as `NaN` are dropped. What is left, in line order, are the children.
 */
module Pgrep {
  import opened Options
  import opened Text

  /** `lines.map((p) => parseInt(p, 10))`. */
  function ParseLines(lines: seq<string>): (values: seq<Option<int>>)
    ensures |values| == |lines|
  {
    if |lines| == 0 then [] else [ParseInt(lines[0])] + ParseLines(lines[1..])
  }

  /** The map is element-wise: the i-th value is the i-th line parsed. */
  lemma {:induction false} ParseLinesMap(lines: seq<string>)
    ensures forall i :: 0 <= i < |lines| ==> ParseLines(lines)[i] == ParseInt(lines[i])
  {
    if |lines| > 0 {
      ParseLinesMap(lines[1..]);
      assert forall i :: 1 <= i < |lines| ==> lines[1..][i - 1] == lines[i];
    }
  }

  /** `.filter((p) => !isNaN(p))`: the numbers, in order. */
  function DropNaN(values: seq<Option<int>>): (pids: seq<int>)
    ensures |pids| <= |values|
    ensures pids == [] <==> forall i :: 0 <= i < |values| ==> values[i] == None
  {
    if |values| == 0 then []
    else
      var first := match values[0] case Some(p) => [p] case None => [];
      var rest := DropNaN(values[1..]);
      assert rest == [] <==> forall i :: 1 <= i < |values| ==> values[i] == None by {
        assert forall i :: 1 <= i < |values| ==> values[i] == values[1..][i - 1];
      }
      first + rest
  }

  /** The children listed in one `pgrep -P` output. Output that is empty or only white
      space lists none. */
  function ParseChildren(output: string): (pids: seq<int>)
    ensures AllSpace(output) ==> pids == []
  {
    var lines := Split(Trim(output));
    assert AllSpace(output) ==> lines == [""] && ParseInt("") == ParseDigits("");
    DropNaN(ParseLines(lines))
  }

  /** Filtering distributes over concatenation: the survivors keep their order. */
  lemma {:induction false} DropNaNAppend(a: seq<Option<int>>, b: seq<Option<int>>)
    ensures DropNaN(a + b) == DropNaN(a) + DropNaN(b)
  {
    if |a| == 0 {
      assert a + b == b;
    } else {
      assert (a + b)[0] == a[0];
      assert (a + b)[1..] == a[1..] + b;
      DropNaNAppend(a[1..], b);
    }
  }

  lemma {:induction false} ParseLinesAppend(a: seq<string>, b: seq<string>)
    ensures ParseLines(a + b) == ParseLines(a) + ParseLines(b)
  {
    if |a| == 0 {
      assert a + b == b;
    } else {
      assert (a + b)[0] == a[0];
      assert (a + b)[1..] == a[1..] + b;
      ParseLinesAppend(a[1..], b);
    }
  }

  lemma ParseOneLine(line: string)
    ensures ParseLines([line]) == [ParseInt(line)]
  {
    assert [line][1..] == [];
  }

  /** Parsing and filtering lines distributes over concatenation: the pids that survive
      keep the order of their lines. */
  lemma {:induction false} LineOrderKept(a: seq<string>, b: seq<string>)
    ensures DropNaN(ParseLines(a + b)) == DropNaN(ParseLines(a)) + DropNaN(ParseLines(b))
  {
    ParseLinesAppend(a, b);
    DropNaNAppend(ParseLines(a), ParseLines(b));
  }

  lemma {:induction false} ParseAround(a: seq<string>, line: string, b: seq<string>)
    ensures ParseLines(a + [line] + b) == ParseLines(a) + [ParseInt(line)] + ParseLines(b)
  {
    ParseLinesAppend(a + [line], b);
    ParseLinesAppend(a, [line]);
    ParseOneLine(line);
  }

  lemma {:induction false} DropAround(a: seq<Option<int>>, v: Option<int>, b: seq<Option<int>>)
    ensures DropNaN(a + [v] + b) == DropNaN(a) + (if v.Some? then [v.value] else []) + DropNaN(b)
  {
    DropNaNAppend(a + [v], b);
    DropNaNAppend(a, [v]);
    assert [v][1..] == [];
    assert DropNaN([v]) == (if v.Some? then [v.value] else []) + DropNaN([v][1..]);
  }

  /** A line that is not a number contributes nothing, wherever it stands. */
  lemma {:induction false} DropsNonNumber(a: seq<string>, line: string, b: seq<string>)
    requires ParseInt(line) == None
    ensures DropNaN(ParseLines(a + [line] + b)) == DropNaN(ParseLines(a + b))
  {
    ParseAround(a, line, b);
    DropAround(ParseLines(a), None, ParseLines(b));
    LineOrderKept(a, b);
  }

  /** A line that parses contributes exactly its value, between the children listed by
      the lines before it and those listed by the lines after it. */
  lemma {:induction false} KeepsNumber(a: seq<string>, line: string, b: seq<string>)
    requires ParseInt(line).Some?
    ensures DropNaN(ParseLines(a + [line] + b))
         == DropNaN(ParseLines(a)) + [ParseInt(line).value] + DropNaN(ParseLines(b))
  {
    ParseAround(a, line, b);
    DropAround(ParseLines(a), ParseInt(line), ParseLines(b));
  }

  /** What `pgrep -P` prints for the given children: each pid in decimal on a line of its
      own, every line ended by a newline. */
  function Render(pids: seq<nat>): string
  {
    if |pids| == 0 then "" else Decimal(pids[0]) + "\n" + Render(pids[1..])
  }

  function Decimals(pids: seq<nat>): (lines: seq<string>)
  {
    seq(|pids|, i requires 0 <= i < |pids| => Decimal(pids[i]))
  }

  /** Reading back what `pgrep` printed recovers exactly the children, in order. */
  lemma {:induction false} RenderRoundTrip(pids: seq<nat>)
    ensures ParseChildren(Render(pids)) == pids
  {
    if |pids| == 0 {
      assert Render(pids) == "";
      assert Split(Trim("")) == [""];
      assert ParseInt("") == None;
    } else {
      var ds := Decimals(pids);
      var j := Join(ds);
      RenderIsJoin(pids);
      assert Render(pids) == j + "\n";
      JoinDecimalsEnds(pids);
      TrimJoinNewline(j);
      forall i | 0 <= i < |ds|
        ensures '\n' !in ds[i]
      {
        assert AllDigits(ds[i]);
      }
      SplitJoin(ds);
      KeepDecimals(pids);
      assert Split(Trim(Render(pids))) == ds;
    }
  }

  lemma {:induction false} RenderIsJoin(pids: seq<nat>)
    requires |pids| > 0
    ensures Render(pids) == Join(Decimals(pids)) + "\n"
  {
    var ds := Decimals(pids);
    if |pids| == 1 {
      assert Render(pids[1..]) == "";
    } else {
      RenderIsJoin(pids[1..]);
      assert Decimals(pids[1..]) == ds[1..];
      assert Join(ds) == ds[0] + "\n" + Join(ds[1..]);
    }
  }

  lemma {:induction false} JoinDecimalsEnds(pids: seq<nat>)
    requires |pids| > 0
    ensures var j := Join(Decimals(pids)); |j| > 0 && IsDigit(j[0]) && IsDigit(j[|j| - 1])
  {
    var ds := Decimals(pids);
    JoinFirst(ds);
    JoinLast(ds);
  }

  lemma {:induction false} JoinFirst(ds: seq<string>)
    requires |ds| > 0 && |ds[0]| > 0
    ensures |Join(ds)| > 0 && Join(ds)[0] == ds[0][0]
  {
  }

  lemma {:induction false} JoinLast(ds: seq<string>)
    requires |ds| > 0 && |ds[|ds| - 1]| > 0
    ensures |Join(ds)| > 0 && Join(ds)[|Join(ds)| - 1] == ds[|ds| - 1][|ds[|ds| - 1]| - 1]
  {
    if |ds| > 1 {
      JoinLast(ds[1..]);
    }
  }

  lemma {:induction false} TrimJoinNewline(j: string)
    requires |j| > 0 && IsDigit(j[0]) && IsDigit(j[|j| - 1])
    ensures Trim(j + "\n") == j
  {
    var s := j + "\n";
    assert s[0] == j[0];
    assert !IsSpace(s[0]);
    assert TrimStart(s) == s;
    assert IsSpace(s[|s| - 1]);
    assert s[..|s| - 1] == j;
    assert TrimEnd(s) == TrimEnd(j);
    assert !IsSpace(j[|j| - 1]);
    assert TrimEnd(j) == j;
  }

  lemma KeepDecimals(pids: seq<nat>)
    ensures DropNaN(ParseLines(Decimals(pids))) == pids
  {
    ParseDecimalLines(pids);
    DropSomes(pids);
  }

  /** The parsed values of a list of pids, every one a number. */
  function Somes(pids: seq<nat>): (values: seq<Option<int>>)
  {
    seq(|pids|, i requires 0 <= i < |pids| => Some(pids[i] as int))
  }

  lemma {:induction false} ParseDecimalLines(pids: seq<nat>)
    ensures ParseLines(Decimals(pids)) == Somes(pids)
  {
    if |pids| > 0 {
      var ds := Decimals(pids);
      DecimalsCons(pids);
      ParseBareDecimal(pids[0]);
      ParseLinesCons(ds);
      ParseDecimalLines(pids[1..]);
      SomesCons(pids);
    }
  }

  lemma DecimalsCons(pids: seq<nat>)
    requires |pids| > 0
    ensures Decimals(pids)[0] == Decimal(pids[0])
    ensures Decimals(pids)[1..] == Decimals(pids[1..])
  {
  }

  lemma SomesCons(pids: seq<nat>)
    requires |pids| > 0
    ensures Somes(pids) == [Some(pids[0] as int)] + Somes(pids[1..])
  {
  }

  lemma ParseLinesCons(lines: seq<string>)
    requires |lines| > 0
    ensures ParseLines(lines) == [ParseInt(lines[0])] + ParseLines(lines[1..])
  {
  }

  lemma ParseBareDecimal(n: nat)
    ensures ParseInt(Decimal(n)) == Some(n)
  {
    ParseDecimal("", n, "");
    assert "" + Decimal(n) + "" == Decimal(n);
  }

  lemma {:induction false} DropSomes(pids: seq<nat>)
    ensures DropNaN(Somes(pids)) == pids
  {
    if |pids| > 0 {
      assert Somes(pids)[1..] == Somes(pids[1..]);
      DropSomes(pids[1..]);
    }
  }
}
