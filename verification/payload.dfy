/** The HTTP body of one batch post: the serialized samples joined by commas inside
    square brackets, a JSON array whose elements are the samples. Each sample is a JSON
    object, so it carries commas of its own; a receiver tells the separators apart by
    reading only the commas that lie outside every bracket and string literal. */
module Payload {
  import opened Wrappers

  /** `String.Join(",", xs)`. */
  function Join(xs: seq<string>): string
    decreases |xs|
  {
    if |xs| == 0 then ""
    else if |xs| == 1 then xs[0]
    else xs[0] + "," + Join(xs[1..])
  }

  /** Where a left-to-right reading of JSON text stands: the bracket nesting depth,
      whether it is inside a string literal, and whether the previous character was a
      backslash inside one. */
  datatype Scan = Scan(depth: nat, inString: bool, escaped: bool)

  /** Outside every bracket and string: the state at the start of an array element. */
  const Outside := Scan(0, false, false)

  /** The reading after one more character. Brackets only count outside strings, and a
      backslash inside a string makes the next character plain. */
  function Step(st: Scan, c: char): Scan {
    if st.inString then
      if st.escaped then st.(escaped := false)
      else if c == '\\' then st.(escaped := true)
      else if c == '"' then st.(inString := false)
      else st
    else if c == '"' then st.(inString := true)
    else if c == '{' || c == '[' then st.(depth := st.depth + 1)
    else if (c == '}' || c == ']') && st.depth > 0 then st.(depth := st.depth - 1)
    else st
  }

  /** The reading after all of `s`. */
  function ScanOver(st: Scan, s: string): Scan
    decreases |s|
  {
    if |s| == 0 then st else ScanOver(Step(st, s[0]), s[1..])
  }

  /** The index of the first comma of `s` that a reading from `st` meets outside every
      bracket and string, or `|s|` when there is none. */
  function TopComma(st: Scan, s: string): (r: nat)
    ensures r <= |s|
    ensures r < |s| ==> s[r] == ','
    decreases |s|
  {
    if |s| == 0 then 0
    else if st == Outside && s[0] == ',' then 0
    else 1 + TopComma(Step(st, s[0]), s[1..])
  }

  /** A serialized sample fit to be an array element: non-empty, every bracket and
      string it opens is closed, and it has no comma outside them. A JSON object is one. */
  predicate Element(x: string) {
    && |x| > 0
    && TopComma(Outside, x) == |x|
    && ScanOver(Outside, x) == Outside
  }

  /** Every sample of a batch is an array element. */
  predicate Elements(xs: seq<string>) {
    forall k :: 0 <= k < |xs| ==> Element(xs[k])
  }

  /** Splits a string at every comma outside brackets and strings. */
  function Split(s: string): (r: seq<string>)
    ensures |r| >= 1
    decreases |s|
  {
    var i := TopComma(Outside, s);
    if i == |s| then [s] else [s[..i]] + Split(s[i + 1..])
  }

  /** How a receiver reads a posted body: a bracketed array, whose elements are split
      at the top-level commas. Anything without the brackets is not an array. */
  function Parse(body: string): Option<seq<string>> {
    if |body| < 2 || body[0] != '[' || body[|body| - 1] != ']' then None
    else if |body| == 2 then Some([])
    else Some(Split(body[1..|body| - 1]))
  }

  /** The body posted for a batch, `'[' + String.Join(",", batch) + ']'`: a receiver
      reads back exactly the batch, sample by sample and in order, whenever every
      sample is an array element. */
  function Body(batch: seq<string>): (r: string)
    ensures Elements(batch) ==> Parse(r) == Some(batch)
  {
    ParseJoin(batch);
    "[" + Join(batch) + "]"
  }

  /** Reading the bracketed join of a batch of elements gives back the batch. */
  lemma ParseJoin(xs: seq<string>)
    ensures Elements(xs) ==> Parse("[" + Join(xs) + "]") == Some(xs)
  {
    if Elements(xs) && |xs| > 0 {
      var s := "[" + Join(xs) + "]";
      assert |Join(xs)| > 0 by {
        if |xs| > 1 { assert Join(xs) == xs[0] + "," + Join(xs[1..]); }
      }
      assert s[1..|s| - 1] == Join(xs);
      SplitJoin(xs);
    }
  }

  /** The two halves of a sequence of elements are sequences of elements. */
  lemma ElementsSplit(x: seq<string>, y: seq<string>)
    requires Elements(x + y)
    ensures Elements(x) && Elements(y)
  {
    forall k | 0 <= k < |x| ensures Element(x[k]) { assert x[k] == (x + y)[k]; }
    forall k | 0 <= k < |y| ensures Element(y[k]) { assert y[k] == (x + y)[|x| + k]; }
  }

  /** The top-level split is an inverse of the join for a non-empty batch of elements:
      the receiver recovers exactly the batch, in order, commas inside samples included. */
  lemma {:induction false} SplitJoin(xs: seq<string>)
    requires |xs| >= 1 && Elements(xs)
    ensures Split(Join(xs)) == xs
    decreases |xs|
  {
    var x := xs[0];
    assert Element(x);
    if |xs| == 1 {
      assert Join(xs) == x;
    } else {
      var rest := Join(xs[1..]);
      assert Elements(xs[1..]) by {
        forall k | 0 <= k < |xs[1..]| ensures Element(xs[1..][k]) { assert xs[1..][k] == xs[k + 1]; }
      }
      SplitJoin(xs[1..]);
      var s := x + ("," + rest);
      assert Join(xs) == s;
      TopCommaAppend(Outside, x, "," + rest);
      assert TopComma(Outside, s) == |x|;
      assert s[..|x|] == x;
      assert s[|x| + 1..] == rest;
      assert Split(s) == [x] + Split(rest);
      assert xs == [x] + xs[1..];
    }
  }

  /** Past a stretch with no top-level comma, the first top-level comma is found by
      reading on from where that stretch left off. */
  lemma {:induction false} TopCommaAppend(st: Scan, x: string, t: string)
    requires TopComma(st, x) == |x|
    ensures TopComma(st, x + t) == |x| + TopComma(ScanOver(st, x), t)
    decreases |x|
  {
    if |x| == 0 {
      assert x + t == t;
    } else {
      assert (x + t)[0] == x[0];
      assert (x + t)[1..] == x[1..] + t;
      TopCommaAppend(Step(st, x[0]), x[1..], t);
    }
  }

  /** A two-element body whose elements hold commas, one inside brackets and one inside
      a string literal, reads back as exactly those two elements. */
  lemma TwoSampleBody()
    ensures Parse(Body(["[1,2]", "\"x,y\""])) == Some(["[1,2]", "\"x,y\""])
  {
    BracketedIsElement();
    QuotedIsElement();
    assert Elements(["[1,2]", "\"x,y\""]);
  }

  /** An array with a comma inside is one element. */
  lemma BracketedIsElement()
    ensures Element("[1,2]")
  {
    var a := "[1,2]";
    assert a[1..] == "1,2]" && a[2..] == ",2]" && a[3..] == "2]" && a[4..] == "]" && a[5..] == "";
  }

  /** A string literal with a comma inside is one element. */
  lemma QuotedIsElement()
    ensures Element("\"x,y\"")
  {
    var b := "\"x,y\"";
    assert b[1..] == "x,y\"" && b[2..] == ",y\"" && b[3..] == "y\"" && b[4..] == "\"" && b[5..] == "";
  }

  /** Reading `x + t` is reading `x`, then reading on through `t`. */
  lemma {:induction false} ScanOverAppend(st: Scan, x: string, t: string)
    ensures ScanOver(st, x + t) == ScanOver(ScanOver(st, x), t)
    decreases |x|
  {
    if |x| == 0 {
      assert x + t == t;
    } else {
      assert (x + t)[0] == x[0];
      assert (x + t)[1..] == x[1..] + t;
      ScanOverAppend(Step(st, x[0]), x[1..], t);
    }
  }

  /** A serialized sample is a JSON object with several fields; it is an array element,
      although it contains a comma. */
  lemma ObjectSampleIsElement()
    ensures Element("{\"m\":\"x\",\"v\":1}")
  {
    var p1, p2, p3, p4 := "{\"m\"", ":\"x\"", ",\"v\"", ":1}";
    ObjectPieces();
    LaterObjectPieces();
    TopCommaAppend(Outside, p1, p2);
    ScanOverAppend(Outside, p1, p2);
    TopCommaAppend(Outside, p1 + p2, p3);
    ScanOverAppend(Outside, p1 + p2, p3);
    TopCommaAppend(Outside, p1 + p2 + p3, p4);
    ScanOverAppend(Outside, p1 + p2 + p3, p4);
    assert p1 + p2 + p3 + p4 == "{\"m\":\"x\",\"v\":1}";
  }

  /** The first two stretches of the sample object: its opening brace and first field. */
  lemma ObjectPieces()
    ensures TopComma(Outside, "{\"m\"") == 4 && ScanOver(Outside, "{\"m\"") == Scan(1, false, false)
    ensures TopComma(Scan(1, false, false), ":\"x\"") == 4 && ScanOver(Scan(1, false, false), ":\"x\"") == Scan(1, false, false)
  {
    var p1, p2 := "{\"m\"", ":\"x\"";
    assert p1[1..] == "\"m\"" && p1[2..] == "m\"" && p1[3..] == "\"" && p1[4..] == "";
    assert p2[1..] == "\"x\"" && p2[2..] == "x\"" && p2[3..] == "\"" && p2[4..] == "";
  }

  /** The last two stretches of the sample object: the comma between its fields is read
      inside the object, and the closing brace leaves it. */
  lemma LaterObjectPieces()
    ensures TopComma(Scan(1, false, false), ",\"v\"") == 4 && ScanOver(Scan(1, false, false), ",\"v\"") == Scan(1, false, false)
    ensures TopComma(Scan(1, false, false), ":1}") == 3 && ScanOver(Scan(1, false, false), ":1}") == Outside
  {
    var p3, p4 := ",\"v\"", ":1}";
    assert p3[1..] == "\"v\"" && p3[2..] == "v\"" && p3[3..] == "\"" && p3[4..] == "";
    assert p4[1..] == "1}" && p4[2..] == "}" && p4[3..] == "";
  }
}
