/**
 * `QueueParams::parse` of `src/interop/queue_params.rs`: a queue request
 * `"file|section|flag|flag..."` becomes a file name, a section name and the
 * one-shot flag.
 */
module QueueParameters {
  import opened Wrappers
  import opened Unicase

  const SEPARATOR: char := '|'

  datatype QueueParams = QueueParams(filename: string, section: string, oneshot: bool)

  /** The index of the first separator. */
  function FirstSeparator(s: string): (i: nat)
    requires SEPARATOR in s
    ensures i < |s| && s[i] == SEPARATOR && SEPARATOR !in s[..i]
  {
    if s[0] == SEPARATOR then 0
    else
      var i := 1 + FirstSeparator(s[1..]);
      assert s[..i] == [s[0]] + s[1..][..i - 1];
      i
  }

  /**
   * `str::split("|")`: the pieces between separators, in order. There is
   * always at least one piece, and no piece contains a separator.
   */
  function Split(s: string): (fields: seq<string>)
    ensures |fields| >= 1
    ensures forall k :: 0 <= k < |fields| ==> SEPARATOR !in fields[k]
    decreases |s|
  {
    if SEPARATOR in s then
      var i := FirstSeparator(s);
      [s[..i]] + Split(s[i + 1..])
    else [s]
  }

  /** Pieces glued back together with a separator between each two. */
  function Join(fields: seq<string>): string
    requires |fields| >= 1
  {
    if |fields| == 1 then fields[0] else fields[0] + [SEPARATOR] + Join(fields[1..])
  }

  /** Splitting a separator-free head off a joined string. */
  lemma SplitCons(head: string, rest: string)
    requires SEPARATOR !in head
    ensures Split(head + [SEPARATOR] + rest) == [head] + Split(rest)
  {
    var s := head + [SEPARATOR] + rest;
    var i := FirstSeparator(s);
    assert s[|head|] == SEPARATOR;
    assert i == |head|;
    assert s[..i] == head;
    assert s[i + 1..] == rest;
  }

  /** Splitting undoes joining, for pieces that contain no separator. */
  lemma {:induction false} SplitJoin(fields: seq<string>)
    requires |fields| >= 1
    requires forall k :: 0 <= k < |fields| ==> SEPARATOR !in fields[k]
    ensures Split(Join(fields)) == fields
  {
    if |fields| > 1 {
      var rest := fields[1..];
      forall k | 0 <= k < |rest| ensures SEPARATOR !in rest[k] {
        assert rest[k] == fields[k + 1];
      }
      SplitJoin(rest);
      assert Join(fields) == fields[0] + [SEPARATOR] + Join(rest);
      SplitCons(fields[0], Join(rest));
      assert [fields[0]] + rest == fields;
    } else {
      assert Join(fields) == fields[0];
      assert SEPARATOR !in fields[0];
    }
  }

  /** Joining undoes splitting. */
  lemma {:induction false} JoinSplit(s: string)
    ensures Join(Split(s)) == s
    decreases |s|
  {
    if SEPARATOR in s {
      var i := FirstSeparator(s);
      JoinSplit(s[i + 1..]);
      assert ([s[..i]] + Split(s[i + 1..]))[1..] == Split(s[i + 1..]);
      assert s == s[..i] + [SEPARATOR] + s[i + 1..];
    }
  }

  /** Some trailing field is `oneshot`, ignoring ASCII case. */
  predicate HasOneshot(flags: seq<string>)
  {
    exists k :: 0 <= k < |flags| && EqAscii(flags[k], "oneshot")
  }

  /**
   * What parsing yields: nothing without a second field; otherwise the first
   * two fields as they are, and the one-shot flag from the remaining ones.
   */
  function Interpret(input: string): Option<QueueParams>
  {
    var fields := Split(input);
    if |fields| < 2 then None
    else Some(QueueParams(fields[0], fields[1], HasOneshot(fields[2..])))
  }

  /** `QueueParams::parse`: walks the split fields, setting the flag for every `oneshot` field after the second. */
  method Parse(input: string) returns (r: Option<QueueParams>)
    ensures r == Interpret(input)
  {
    var splits := Split(input);
    var filename := splits[0];
    if |splits| < 2 {
      return None;
    }
    var section := splits[1];
    var oneshot := false;
    var k := 2;
    while k < |splits|
      invariant 2 <= k <= |splits|
      invariant oneshot <==> exists j :: 2 <= j < k && EqAscii(splits[j], "oneshot")
    {
      if EqAscii(splits[k], "oneshot") {
        oneshot := true;
      }
      k := k + 1;
    }
    assert oneshot == HasOneshot(splits[2..]) by {
      if oneshot {
        var j :| 2 <= j < k && EqAscii(splits[j], "oneshot");
        assert splits[2..][j - 2] == splits[j];
      }
      if HasOneshot(splits[2..]) {
        var j :| 0 <= j < |splits| - 2 && EqAscii(splits[2..][j], "oneshot");
        assert splits[j + 2] == splits[2..][j];
      }
    }
    return Some(QueueParams(filename, section, oneshot));
  }

  // ---------------------------------------------------------------------------
  // Properties

  /** Parsing fails exactly when the input has no separator. */
  lemma InterpretFailsWithoutSeparator(input: string)
    ensures Interpret(input).None? <==> SEPARATOR !in input
  {
    if SEPARATOR in input {
      var i := FirstSeparator(input);
      assert Split(input) == [input[..i]] + Split(input[i + 1..]);
    }
  }

  /** The first field is the text up to the first separator, or all of it. */
  lemma FirstField(s: string)
    ensures var g := Split(s)[0];
      |g| <= |s| && s[..|g|] == g && (|g| == |s| || s[|g|] == SEPARATOR)
  {
  }

  /**
   * The file name is the text before the first separator and the section the
   * text after it up to the second separator or the end; neither is trimmed
   * and either may be empty.
   */
  lemma InterpretFields(input: string)
    requires SEPARATOR in input
    ensures var r := Interpret(input);
      r.Some? &&
      var f, s := r.value.filename, r.value.section;
      SEPARATOR !in f && SEPARATOR !in s &&
      |f| + 1 + |s| <= |input| &&
      input[..|f|] == f && input[|f|] == SEPARATOR && input[|f| + 1..|f| + 1 + |s|] == s &&
      (|f| + 1 + |s| == |input| || input[|f| + 1 + |s|] == SEPARATOR)
  {
    var i := FirstSeparator(input);
    var rest := input[i + 1..];
    assert Split(input) == [input[..i]] + Split(rest);
    FirstField(rest);
    var s := Split(rest)[0];
    assert input[i + 1..i + 1 + |s|] == rest[..|s|];
  }

  /** Parsing an input whose fields are known. */
  lemma InterpretSplit(input: string, fields: seq<string>)
    requires Split(input) == fields && |fields| >= 2
    ensures Interpret(input) == Some(QueueParams(fields[0], fields[1], HasOneshot(fields[2..])))
  {
  }

  /** The fields of a request built from a file name, a section and flags. */
  lemma RequestFields(f: string, s: string, flags: seq<string>)
    requires SEPARATOR !in f && SEPARATOR !in s
    requires forall k :: 0 <= k < |flags| ==> SEPARATOR !in flags[k]
    ensures var fields := [f, s] + flags;
      (forall k :: 0 <= k < |fields| ==> SEPARATOR !in fields[k]) &&
      fields[0] == f && fields[1] == s && fields[2..] == flags
  {
    var fields := [f, s] + flags;
    forall k | 0 <= k < |fields| ensures SEPARATOR !in fields[k] {
      if k >= 2 {
        assert fields[k] == flags[k - 2];
      }
    }
  }

  /**
   * Round trip: a file name and a section without separators, followed by any
   * flags, parse back to themselves, and the one-shot flag is set exactly when
   * some flag is `oneshot` ignoring ASCII case, whatever the order of the flags
   * or how often they repeat.
   */
  lemma InterpretJoin(f: string, s: string, flags: seq<string>)
    requires SEPARATOR !in f && SEPARATOR !in s
    requires forall k :: 0 <= k < |flags| ==> SEPARATOR !in flags[k]
    ensures Interpret(Join([f, s] + flags)) == Some(QueueParams(f, s, HasOneshot(flags)))
  {
    var fields := [f, s] + flags;
    RequestFields(f, s, flags);
    SplitJoin(fields);
    InterpretSplit(Join(fields), fields);
  }

  /** Joining two and three fields. */
  lemma JoinSmall(a: string, b: string, c: string)
    ensures Join([a, b]) == a + "|" + b
    ensures Join([a, b, c]) == a + "|" + b + "|" + c
  {
    assert [a, b][1..] == [b];
    assert [b, c][1..] == [c];
    assert Join([b, c]) == b + "|" + c;
    assert [a, b, c][1..] == [b, c];
    assert Join([a, b, c]) == a + "|" + (b + "|" + c);
  }

  /** `ONESHOT` is the one-shot flag in any case; no flags is no one-shot. */
  lemma OneshotFlag()
    ensures HasOneshot(["ONESHOT"]) && !HasOneshot([])
  {
    assert EqAscii(["ONESHOT"][0], "oneshot");
  }

  /** The plain form a caller writes: `f|s` is not one-shot. */
  lemma InterpretPlainExample(f: string, s: string)
    requires SEPARATOR !in f && SEPARATOR !in s
    ensures Interpret(f + "|" + s) == Some(QueueParams(f, s, false))
  {
    JoinSmall(f, s, "");
    OneshotFlag();
    InterpretJoin(f, s, []);
    assert [f, s] + [] == [f, s];
  }

  /** The one-shot form a caller writes: `f|s|ONESHOT` is one-shot. */
  lemma InterpretOneshotExample(f: string, s: string)
    requires SEPARATOR !in f && SEPARATOR !in s
    ensures Interpret(f + "|" + s + "|ONESHOT") == Some(QueueParams(f, s, true))
  {
    JoinSmall(f, s, "ONESHOT");
    OneshotFlag();
    InterpretJoin(f, s, ["ONESHOT"]);
    assert [f, s] + ["ONESHOT"] == [f, s, "ONESHOT"];
    assert f + "|" + s + "|" + "ONESHOT" == f + "|" + s + "|ONESHOT";
  }
}
