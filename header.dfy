/**
 parse_header: a raw header string, fields separated by '|', becomes a
 dictionary. Each field splits at its first ':' into a name and a value,
 both stripped of whitespace. A field that starts with ':' (an HTTP/2
 pseudo-header such as ":authority") splits after that colon and keeps it
 on the name. A field with no colon to split at raises ValueError.
 */
module Header {
  import opened Wrappers
  import opened PyStr

  /** The ValueError of `a, b = ...split(":", 1)`, at the given field. */
  datatype HeaderError = MissingColon(field: nat)

  predicate IsPseudo(line: string) {
    |line| > 0 && line[0] == ':'
  }

  /** The part of a field that is split at its first colon. */
  function SplitPart(line: string): string {
    if IsPseudo(line) then line[1..] else line
  }

  /** The name and value one field contributes, or None when the unpacking fails. */
  function ParseField(line: string): (r: Option<(string, string)>)
    ensures r.None? <==> ':' !in SplitPart(line)
  {
    if IsPseudo(line) then
      match SplitOnce(line[1..], ':')
      case None => None
      case Some((a, b)) => Some((Strip(":" + a), Strip(b)))
    else
      match SplitOnce(line, ':')
      case None => None
      case Some((a, b)) => Some((Strip(a), Strip(b)))
  }

  /**
   A field fails exactly when no colon follows its optional leading one.
   Otherwise the name and the value are stripped; a pseudo-header's name
   starts with its colon and has no other, and any other name has none.
   */
  lemma ParseFieldShape(line: string)
    ensures ParseField(line).None? <==> ':' !in SplitPart(line)
    ensures ParseField(line).Some? ==>
      var (k, v) := ParseField(line).value;
      && Strip(k) == k && Strip(v) == v
      && (IsPseudo(line) ==> |k| > 0 && k[0] == ':' && ':' !in k[1..])
      && (!IsPseudo(line) ==> ':' !in k)
  {
    if IsPseudo(line) {
      match SplitOnce(line[1..], ':')
      case None =>
      case Some((a, b)) =>
        PseudoName(a);
        StripIdempotent(":" + a);
        StripIdempotent(b);
    } else {
      match SplitOnce(line, ':')
      case None =>
      case Some((a, b)) =>
        StripKeepsOut(a, ':');
        StripIdempotent(a);
        StripIdempotent(b);
    }
  }

  /** The name of a pseudo-header keeps its colon and gains no other. */
  lemma PseudoName(a: string)
    requires ':' !in a
    ensures var k := Strip(":" + a); |k| > 0 && k[0] == ':' && ':' !in k[1..]
  {
    var s := ":" + a;
    StripKeepsFirst(s);
    var k := Strip(s);
    var i := LeadingSpace(s);
    assert !IsSpace(s[0]);
    assert i == 0;
    assert k[1..] == a[..|k| - 1];
  }

  lemma StripKeepsOut(s: string, c: char)
    requires c !in s
    ensures c !in Strip(s)
  {
  }

  /** What each field contributes, in order. */
  function Entries(fields: seq<string>): (entries: seq<Option<(string, string)>>)
    ensures |entries| == |fields|
    ensures forall i :: 0 <= i < |fields| ==> entries[i] == ParseField(fields[i])
  {
    seq(|fields|, i requires 0 <= i < |fields| => ParseField(fields[i]))
  }

  /**
   The dictionary after the given entries, assigned in order, so that a later
   entry with the same name replaces the value of an earlier one; the first
   missing entry is the error.
   */
  function Assign(entries: seq<Option<(string, string)>>): (r: Result<map<string, string>, HeaderError>)
    ensures r.Failure? ==> r.error.field < |entries| && entries[r.error.field].None?
    decreases |entries|
  {
    if |entries| == 0 then Success(map[])
    else
      var n := |entries| - 1;
      match Assign(entries[..n])
      case Failure(e) => Failure(e)
      case Success(m) =>
        match entries[n]
        case None => Failure(MissingColon(n))
        case Some((k, v)) => Success(m[k := v])
  }

  /** What parse_header returns for raw, or the field where it raises. */
  function HeaderOf(raw: string): (r: Result<map<string, string>, HeaderError>)
    ensures r.Failure? ==>
      var fields := Split(raw, '|');
      r.error.field < |fields| && ':' !in SplitPart(fields[r.error.field])
  {
    Assign(Entries(Split(raw, '|')))
  }

  /** parse_header(raw_header). */
  method ParseHeader(raw: string) returns (r: Result<map<string, string>, HeaderError>)
    ensures r == HeaderOf(raw)
  {
    var fields := Split(raw, '|');
    ghost var entries := Entries(fields);
    var header: map<string, string> := map[];
    for i := 0 to |fields|
      invariant Assign(entries[..i]) == Success(header)
    {
      var entry := SplitLine(fields[i]);
      AssignStep(entries, i, header);
      if entry.None? {
        FailureSticks(entries, i + 1);
        return Failure(MissingColon(i));
      }
      var (a, b) := entry.value;
      header := header[a := b];
    }
    assert entries[..|fields|] == entries;
    r := Success(header);
  }

  /** One turn of the loop: how the dictionary after i + 1 entries follows from the one after i. */
  lemma AssignStep(entries: seq<Option<(string, string)>>, i: nat, header: map<string, string>)
    requires i < |entries|
    requires Assign(entries[..i]) == Success(header)
    ensures Assign(entries[..i + 1]) ==
      if entries[i].None? then Failure(MissingColon(i))
      else Success(header[entries[i].value.0 := entries[i].value.1])
  {
    assert entries[..i + 1][..i] == entries[..i];
  }

  /** The body of parse_header's loop for one line: the stripped name and value, or None where unpacking raises. */
  method SplitLine(line: string) returns (entry: Option<(string, string)>)
    ensures entry == ParseField(line)
  {
    var a, b;
    if |line| > 0 && line[0] == ':' {
      var parts := SplitOnce(line[1..], ':');
      if parts.None? {
        return None;
      }
      a, b := parts.value.0, parts.value.1;
      a := ":" + a;
    } else {
      var parts := SplitOnce(line, ':');
      if parts.None? {
        return None;
      }
      a, b := parts.value.0, parts.value.1;
    }
    entry := Some((Strip(a), Strip(b)));
  }

  /** Once a prefix of the entries fails, the whole list fails with the same error. */
  lemma {:induction false} FailureSticks(entries: seq<Option<(string, string)>>, n: nat)
    requires n <= |entries|
    requires Assign(entries[..n]).Failure?
    ensures Assign(entries) == Assign(entries[..n])
    decreases |entries| - n
  {
    if n < |entries| {
      assert entries[..n + 1][..n] == entries[..n];
      FailureSticks(entries, n + 1);
    } else {
      assert entries[..n] == entries;
    }
  }

  // ---------------------------------------------------------------------
  // What the dictionary is, stated without the loop

  /** Entry i is present and names k. */
  ghost predicate NamedAt(entries: seq<Option<(string, string)>>, i: int, k: string) {
    0 <= i < |entries| && entries[i].Some? && entries[i].value.0 == k
  }

  /** Entry i is the last one naming k, and gives it the value v. */
  ghost predicate LastAt(entries: seq<Option<(string, string)>>, i: int, k: string, v: string) {
    && NamedAt(entries, i, k)
    && entries[i].value.1 == v
    && forall j :: i < j < |entries| ==> !NamedAt(entries, j, k)
  }

  /** The assignments fail exactly when some entry is missing. */
  lemma {:induction false} AssignSucceedsIff(entries: seq<Option<(string, string)>>)
    ensures Assign(entries).Success? <==> forall i :: 0 <= i < |entries| ==> entries[i].Some?
    decreases |entries|
  {
    if |entries| > 0 {
      var n := |entries| - 1;
      AssignSucceedsIff(entries[..n]);
      assert forall i :: 0 <= i < n ==> entries[..n][i] == entries[i];
    }
  }

  /** The error names the first missing entry. */
  lemma {:induction false} AssignFailsAtFirst(entries: seq<Option<(string, string)>>)
    requires Assign(entries).Failure?
    ensures var i := Assign(entries).error.field;
      && i < |entries|
      && entries[i].None?
      && forall j :: 0 <= j < i ==> entries[j].Some?
    decreases |entries|
  {
    var n := |entries| - 1;
    assert forall j :: 0 <= j < n ==> entries[..n][j] == entries[j];
    if Assign(entries[..n]).Failure? {
      AssignFailsAtFirst(entries[..n]);
    } else {
      AssignSucceedsIff(entries[..n]);
    }
  }

  lemma PrefixNamed(entries: seq<Option<(string, string)>>, n: nat)
    requires n <= |entries|
    ensures forall j, k :: 0 <= j < n ==> (NamedAt(entries[..n], j, k) <==> NamedAt(entries, j, k))
  {
    assert forall j :: 0 <= j < n ==> entries[..n][j] == entries[j];
  }

  /** The names in the dictionary are the names of the entries. */
  lemma {:induction false} AssignKeys(entries: seq<Option<(string, string)>>, m: map<string, string>)
    requires Assign(entries) == Success(m)
    ensures forall k :: k in m <==> exists i :: NamedAt(entries, i, k)
    decreases |entries|
  {
    if |entries| > 0 {
      var n := |entries| - 1;
      var m' := Assign(entries[..n]).value;
      AssignKeys(entries[..n], m');
      PrefixNamed(entries, n);
      var kv := entries[n].value;
      assert NamedAt(entries, n, kv.0);
      forall k | k in m
        ensures exists i :: NamedAt(entries, i, k)
      {
        if k != kv.0 {
          var i :| NamedAt(entries[..n], i, k);
          assert NamedAt(entries, i, k);
        }
      }
      forall k, i | NamedAt(entries, i, k)
        ensures k in m
      {
        if i < n {
          assert NamedAt(entries[..n], i, k);
        }
      }
    }
  }

  /** Each name in the dictionary holds the value of the last entry with that name. */
  lemma {:induction false} AssignLastWins(entries: seq<Option<(string, string)>>, m: map<string, string>, k: string)
    requires Assign(entries) == Success(m)
    requires k in m
    ensures exists i :: LastAt(entries, i, k, m[k])
    decreases |entries|
  {
    var n := |entries| - 1;
    var m' := Assign(entries[..n]).value;
    var kv := entries[n].value;
    if k == kv.0 {
      assert LastAt(entries, n, k, m[k]);
    } else {
      AssignLastWins(entries[..n], m', k);
      PrefixNamed(entries, n);
      var i :| LastAt(entries[..n], i, k, m'[k]);
      assert !NamedAt(entries, n, k);
      assert LastAt(entries, i, k, m[k]);
    }
  }

  // ---------------------------------------------------------------------
  // The same, for parse_header itself

  /** Each entry is missing exactly where its field has no colon to split at. */
  lemma EntriesFail(fields: seq<string>)
    ensures MissingWhereNoColon(Entries(fields), fields)
  {
  }

  /** Entries that are missing exactly where their fields have no colon to split at. */
  ghost predicate MissingWhereNoColon(entries: seq<Option<(string, string)>>, fields: seq<string>) {
    && |entries| == |fields|
    && forall i :: 0 <= i < |fields| ==> (entries[i].None? <==> ':' !in SplitPart(fields[i]))
  }

  /** Some field has no colon after its optional leading one. */
  ghost predicate SomeLacksColon(fields: seq<string>) {
    exists i :: 0 <= i < |fields| && ':' !in SplitPart(fields[i])
  }

  /** Field i is the first with no colon after its optional leading one. */
  ghost predicate FirstLacksColon(fields: seq<string>, i: int) {
    && 0 <= i < |fields|
    && ':' !in SplitPart(fields[i])
    && forall j :: 0 <= j < i ==> ':' in SplitPart(fields[j])
  }

  lemma FailsIffNoColon(entries: seq<Option<(string, string)>>, fields: seq<string>)
    requires MissingWhereNoColon(entries, fields)
    ensures Assign(entries).Failure? <==> SomeLacksColon(fields)
  {
    AssignSucceedsIff(entries);
    if Assign(entries).Failure? {
      var i :| 0 <= i < |entries| && entries[i].None?;
      assert ':' !in SplitPart(fields[i]);
    }
  }

  lemma FailsAtFirstNoColon(entries: seq<Option<(string, string)>>, fields: seq<string>)
    requires MissingWhereNoColon(entries, fields)
    requires Assign(entries).Failure?
    ensures FirstLacksColon(fields, Assign(entries).error.field)
  {
    AssignFailsAtFirst(entries);
  }

  /** parse_header raises exactly when some field has no colon after its optional leading one. */
  lemma HeaderFailsIff(raw: string)
    ensures HeaderOf(raw).Failure? <==> SomeLacksColon(Split(raw, '|'))
  {
    var fields := Split(raw, '|');
    var entries := Entries(fields);
    assert HeaderOf(raw) == Assign(entries);
    EntriesFail(fields);
    FailsIffNoColon(entries, fields);
  }

  /** The error names the first such field. */
  lemma HeaderFailsAtFirst(raw: string)
    requires HeaderOf(raw).Failure?
    ensures FirstLacksColon(Split(raw, '|'), HeaderOf(raw).error.field)
  {
    var fields := Split(raw, '|');
    var entries := Entries(fields);
    assert HeaderOf(raw) == Assign(entries);
    EntriesFail(fields);
    FailsAtFirstNoColon(entries, fields);
  }

  /** Each name parse_header returns holds the value of the last field that names it. */
  lemma HeaderLastWins(raw: string, k: string)
    requires HeaderOf(raw).Success? && k in HeaderOf(raw).value
    ensures exists i :: LastAt(Entries(Split(raw, '|')), i, k, HeaderOf(raw).value[k])
  {
    var entries, m := Entries(Split(raw, '|')), HeaderOf(raw).value;
    AssignLastWins(entries, m, k);
    var i :| LastAt(entries, i, k, m[k]);
  }

  // ---------------------------------------------------------------------
  // Writing a header string and reading it back

  /** A name parse_header can give back: stripped, no '|', and a colon only in front. */
  predicate IsHeaderName(k: string) {
    && |k| > 0
    && Strip(k) == k
    && '|' !in k
    && (if k[0] == ':' then ':' !in k[1..] else ':' !in k)
  }

  /** A value parse_header can give back: stripped, no '|'. */
  predicate IsHeaderValue(v: string) {
    Strip(v) == v && '|' !in v
  }

  lemma ParseFieldRoundTrip(k: string, v: string)
    requires IsHeaderName(k) && IsHeaderValue(v)
    ensures ParseField(k + ":" + v) == Some((k, v))
  {
    if k[0] == ':' {
      PseudoFieldRoundTrip(k, v);
    } else {
      PlainFieldRoundTrip(k, v);
    }
  }

  lemma PlainFieldRoundTrip(k: string, v: string)
    requires IsHeaderName(k) && IsHeaderValue(v) && k[0] != ':'
    ensures ParseField(k + ":" + v) == Some((k, v))
  {
    var line := k + ":" + v;
    assert !IsPseudo(line);
    var r := SplitOnce(line, ':');
    PrefixBeforeFirst(k, v, r.value.0, r.value.1, ':');
    assert r == Some((k, v));
  }

  lemma PseudoFieldRoundTrip(k: string, v: string)
    requires IsHeaderName(k) && IsHeaderValue(v) && k[0] == ':'
    ensures ParseField(k + ":" + v) == Some((k, v))
  {
    PseudoSplit(k, v);
    RestoreColon(k);
  }

  lemma PseudoSplit(k: string, v: string)
    requires |k| > 0 && k[0] == ':' && ':' !in k[1..]
    ensures var line := k + ":" + v; IsPseudo(line) && SplitOnce(line[1..], ':') == Some((k[1..], v))
  {
    var line := k + ":" + v;
    var a := k[1..];
    assert line[0] == k[0];
    assert line[1..] == a + ":" + v;
    var r := SplitOnce(line[1..], ':');
    PrefixBeforeFirst(a, v, r.value.0, r.value.1, ':');
  }

  lemma RestoreColon(k: string)
    requires |k| > 0 && k[0] == ':'
    ensures ":" + k[1..] == k
  {
  }

  /** The fields "name:value" for the given entries. */
  function Lines(entries: seq<(string, string)>): (lines: seq<string>)
    ensures |lines| == |entries|
  {
    seq(|entries|, i requires 0 <= i < |entries| => entries[i].0 + ":" + entries[i].1)
  }

  /** The dictionary the entries make when assigned in order. */
  function ToMap(entries: seq<(string, string)>): map<string, string>
    decreases |entries|
  {
    if |entries| == 0 then map[]
    else
      var n := |entries| - 1;
      ToMap(entries[..n])[entries[n].0 := entries[n].1]
  }

  lemma {:induction false} AssignPairs(entries: seq<Option<(string, string)>>, pairs: seq<(string, string)>)
    requires |entries| == |pairs|
    requires forall i :: 0 <= i < |pairs| ==> entries[i] == Some(pairs[i])
    ensures Assign(entries) == Success(ToMap(pairs))
    decreases |pairs|
  {
    if |pairs| > 0 {
      var n := |pairs| - 1;
      AssignPairs(entries[..n], pairs[..n]);
    }
  }

  /** Joining well-formed entries with '|' and parsing them gives back their dictionary. */
  lemma HeaderRoundTrip(pairs: seq<(string, string)>)
    requires |pairs| >= 1
    requires forall i :: 0 <= i < |pairs| ==> IsHeaderName(pairs[i].0) && IsHeaderValue(pairs[i].1)
    ensures HeaderOf(Join(Lines(pairs), '|')) == Success(ToMap(pairs))
  {
    var lines := Lines(pairs);
    forall i | 0 <= i < |lines|
      ensures '|' !in lines[i]
    {
      assert lines[i] == pairs[i].0 + ":" + pairs[i].1;
    }
    SplitJoin(lines, '|');
    var entries := Entries(lines);
    forall i | 0 <= i < |pairs|
      ensures entries[i] == Some(pairs[i])
    {
      ParseFieldRoundTrip(pairs[i].0, pairs[i].1);
    }
    AssignPairs(entries, pairs);
  }

  /**
   Stripping a pseudo-header name, which starts with its colon, removes only
   trailing whitespace: whitespace just after the colon stays in the name
   (the name of ":" + a + ":" + b is Strip(":" + a), see PseudoFieldOf).
   */
  lemma PseudoNameKeepsInnerSpace(k: string)
    requires |k| > 0 && k[0] == ':'
    ensures Strip(k) == k[..|k| - TrailingSpace(k)]
  {
    assert LeadingSpace(k) == 0;
    assert k[0..] == k;
  }

  /** The field a + ":" + b, with a non-empty and colon-free, gives the name Strip(a) and the value Strip(b). */
  lemma PlainFieldOf(a: string, b: string)
    requires ':' !in a && |a| > 0
    ensures ParseField(a + ":" + b) == Some((Strip(a), Strip(b)))
  {
    var line := a + ":" + b;
    assert line[0] == a[0];
    var r := SplitOnce(line, ':');
    PrefixBeforeFirst(a, b, r.value.0, r.value.1, ':');
  }

  /** The field ":" + a + ":" + b, with no colon in a, gives the name Strip(":" + a) and the value Strip(b). */
  lemma PseudoFieldOf(a: string, b: string)
    requires ':' !in a
    ensures ParseField(":" + a + ":" + b) == Some((Strip(":" + a), Strip(b)))
  {
    var k := ":" + a;
    assert k[1..] == a;
    PseudoSplit(k, b);
  }

  /** "".split("|") is [""], which has no colon: the empty header raises. */
  lemma EmptyHeaderFails()
    ensures HeaderOf("") == Failure(MissingColon(0))
  {
    assert Split("", '|') == [""];
  }

}
