/**
 * The N3 line tokenizer of split_n3.h.
 *
 * The class works in place: it copies a line into its own buffer, overwrites the character behind each
 * token with NUL, and closes the gap that a decoded "\n" escape leaves by moving the tail of the buffer.
 * Its specification is `Tokens`, a scanner over an immutable string, so that "no token's parsing alters
 * an earlier one" is part of what `ParseLine` promises.
 */
module SplitN3 {
  import opened Wrappers

  predicate IsWhitespace(c: char) {
    c == ' ' || c == '\t' || c == '\n' || c == '\r'
  }

  predicate NoNul(t: string) {
    forall i | 0 <= i < |t| :: t[i] != '\0'
  }

  // ---------------------------------------------------------------------------------------------
  // The scanner over immutable text
  // ---------------------------------------------------------------------------------------------

  /** What scanning one token gives: its text and what is left of the line, or a failed assertion. */
  datatype Scan = Stuck | Scan(value: string, rest: string)

  function Prepend(s: string, scan: Scan): Scan {
    match scan
    case Stuck => Stuck
    case Scan(v, rest) => Scan(s + v, rest)
  }

  function WordEnd(t: string): (j: nat)
    ensures j <= |t|
    ensures forall i | 0 <= i < j :: !IsWhitespace(t[i])
    ensures j < |t| ==> IsWhitespace(t[j])
  {
    if t == "" || IsWhitespace(t[0]) then 0 else 1 + WordEnd(t[1..])
  }

  /** The index behind the first '>', or the end of the text. */
  function UriEnd(t: string): (j: nat)
    ensures j <= |t|
  {
    if t == "" then 0 else if t[0] == '>' then 1 else 1 + UriEnd(t[1..])
  }

  function Trim(t: string): (u: string)
    ensures |u| <= |t| && t[|t| - |u|..] == u
    ensures u != "" ==> !IsWhitespace(u[0])
  {
    if t != "" && IsWhitespace(t[0]) then Trim(t[1..]) else t
  }

  /** What follows position `j` once the character at `j` has become a terminator. */
  function After(t: string, j: nat): string
    requires j <= |t|
  {
    if j < |t| then t[j + 1..] else ""
  }

  function ScanName(t: string): Scan {
    var j := WordEnd(t); Scan(t[..j], After(t, j))
  }

  function ScanUri(t: string): Scan {
    var j := UriEnd(t); Scan(t[..j], After(t, j))
  }

  /** What may follow a closing quote: `^^type`, `@lang`, or any one character, which is lost. */
  function ScanSuffix(t: string): Scan {
    if t == "" || (t[0] != '^' && t[0] != '@') then Scan("", After(t, 0))
    else if t[0] == '@' then Prepend("@", ScanName(t[1..]))
    else if |t| < 2 || t[1] != '^' then Stuck
    else Prepend("^", ScanName(t[1..]))
  }

  /** The inside of a literal, from behind the opening quote. */
  function ScanBody(t: string): Scan {
    if t == "" then Scan("", "")
    else if t[0] == '\\' && |t| > 1 && t[1] == 'n' then Prepend("\n", ScanBody(t[2..]))
    else if t[0] == '\\' && |t| > 1 && t[1] == '"' then Prepend("\\\"", ScanBody(t[2..]))
    else if t[0] == '"' then Prepend("\"", ScanSuffix(t[1..]))
    else Prepend([t[0]], ScanBody(t[1..]))
  }

  /** A text that starts with a token. */
  function ScanText(u: string): Scan {
    if u != "" && u[0] == '"' then Prepend("\"", ScanBody(u[1..]))
    else if u != "" && u[0] == '<' then ScanUri(u)
    else ScanName(u)
  }

  function ScanElement(t: string): Scan {
    ScanText(Trim(t))
  }

  /** The tokens of a line; None when an assertion in the source would fail. */
  function Tokens(t: string): Option<seq<string>>
    decreases |t|
  {
    if t == "" then Some([]) else
    match ScanElement(t)
    case Stuck => None
    case Scan(v, rest) =>
      ScanShrinks(t);
      if rest != "" && rest[0] == '.' then Some([v]) else
      match Tokens(rest)
      case None => None
      case Some(vs) => Some([v] + vs)
  }

  /** What was scanned is shorter than the text by what was taken, and brings no NUL in. */
  ghost predicate Within(s: Scan, t: string) {
    s.Scan? ==> |s.rest| <= |t| && (NoNul(t) ==> NoNul(s.value) && NoNul(s.rest))
  }

  lemma PrependWithin(a: string, s: Scan, u: string, t: string)
    requires Within(s, u) && |a| + |u| <= |t| && t[|t| - |u|..] == u
    requires NoNul(t) ==> NoNul(a)
    ensures Within(Prepend(a, s), t)
  {
    assert NoNul(t) ==> NoNul(u) by {
      assert forall i | 0 <= i < |u| :: u[i] == t[|t| - |u| + i];
    }
  }

  lemma NameWithin(t: string)
    ensures Within(ScanName(t), t)
  {
  }

  lemma SuffixWithin(t: string)
    ensures Within(ScanSuffix(t), t)
  {
    if t != "" && (t[0] == '^' || t[0] == '@') {
      NameWithin(t[1..]);
      PrependWithin([t[0]], ScanName(t[1..]), t[1..], t);
    }
  }

  lemma {:induction false} BodyWithin(t: string)
    ensures Within(ScanBody(t), t)
    decreases |t|
  {
    hide Within, Prepend, ScanSuffix;
    if t == "" {
      NothingWithin();
    } else if t[0] == '\\' && |t| > 1 && t[1] == 'n' {
      BodyWithin(t[2..]);
      PrependWithin("\n", ScanBody(t[2..]), t[2..], t);
    } else if t[0] == '\\' && |t| > 1 && t[1] == '"' {
      BodyWithin(t[2..]);
      PrependWithin("\\\"", ScanBody(t[2..]), t[2..], t);
    } else if t[0] == '"' {
      SuffixWithin(t[1..]);
      PrependWithin("\"", ScanSuffix(t[1..]), t[1..], t);
    } else {
      BodyWithin(t[1..]);
      PrependWithin([t[0]], ScanBody(t[1..]), t[1..], t);
    }
  }

  lemma NothingWithin()
    ensures Within(Scan("", ""), "")
  {
  }

  lemma SuffixHasNoNul(u: string, t: string)
    requires |u| <= |t| && t[|t| - |u|..] == u && NoNul(t)
    ensures NoNul(u)
  {
    assert forall i | 0 <= i < |u| :: u[i] == t[|t| - |u| + i];
  }

  lemma UriWithin(t: string)
    ensures Within(ScanUri(t), t) && ScanUri(t).Scan? && (t != "" ==> |ScanUri(t).rest| < |t|)
  {
    assert t != "" ==> UriEnd(t) > 0;
  }

  lemma QuotedShrinks(s: Scan, u: string)
    requires u != "" && u[0] == '"' && Within(s, u[1..])
    ensures Within(Prepend("\"", s), u) && (s.Scan? ==> |s.rest| < |u|)
    ensures Prepend("\"", s).Scan? ==> s.Scan? && Prepend("\"", s).rest == s.rest
  {
    PrependWithin("\"", s, u[1..], u);
  }

  lemma NameShrinks(u: string)
    requires u != "" ==> !IsWhitespace(u[0])
    ensures Within(ScanName(u), u) && ScanName(u).Scan?
    ensures if u == "" then ScanName(u).rest == "" else |ScanName(u).rest| < |u|
  {
    NameWithin(u);
    assert u != "" ==> WordEnd(u) > 0;
  }

  lemma WithinSuffix(s: Scan, u: string, t: string)
    requires Within(s, u) && |u| <= |t| && t[|t| - |u|..] == u
    ensures Within(s, t)
  {
    if NoNul(t) {
      SuffixHasNoNul(u, t);
    }
  }

  /** Scanning takes something of every line that is not empty. */
  lemma ScanShrinks(t: string)
    ensures Within(ScanElement(t), t)
    ensures t != "" && ScanElement(t).Scan? ==> |ScanElement(t).rest| < |t|
  {
    hide *;
    var u := Trim(t);
    ElementCases(t, u);
    if u != "" && u[0] == '"' {
      BodyWithin(u[1..]);
      QuotedShrinks(ScanBody(u[1..]), u);
    } else if u != "" && u[0] == '<' {
      UriWithin(u);
    } else {
      NameShrinks(u);
    }
    WithinSuffix(ScanElement(t), u, t);
  }

  lemma PrependTwice(a: string, b: string, s: Scan)
    ensures Prepend(a, Prepend(b, s)) == Prepend(a + b, s)
  {
    if s.Scan? {
      assert a + (b + s.value) == (a + b) + s.value;
    }
  }

  // ---------------------------------------------------------------------------------------------
  // The tokenizer in place
  // ---------------------------------------------------------------------------------------------

  /** From index `p` on, the memory holds the C string `t` and then only NULs. */
  ghost predicate Holds(mem: seq<char>, p: nat, t: string) {
    && p + |t| < |mem|
    && NoNul(t)
    && (forall k | p <= k < |mem| :: mem[k] == if k < p + |t| then t[k - p] else '\0')
  }

  /** The C string that starts at `p` is exactly `v`. */
  ghost predicate IsCString(mem: seq<char>, p: int, v: string) {
    && 0 <= p && p + |v| < |mem|
    && NoNul(v)
    && (forall k | p <= k < p + |v| :: mem[k] == v[k - p])
    && mem[p + |v|] == '\0'
  }

  /** Each string stands as a C string at its start. */
  ghost predicate AreCStrings(mem: seq<char>, starts: seq<int>, strings: seq<string>) {
    && |starts| == |strings|
    && (forall k | 0 <= k < |starts| :: IsCString(mem, starts[k], strings[k]))
  }

  ghost predicate SameBelow(before: seq<char>, mem: seq<char>, p: nat) {
    && p <= |mem| == |before|
    && (forall k | 0 <= k < p :: mem[k] == before[k])
  }

  /** From `p` on, what `s` left of the line: nothing but NULs, or a NUL and the rest. */
  ghost predicate Leaves(mem: seq<char>, p: nat, rest: string, end: nat) {
    && p < |mem| && p <= end
    && mem[p] == '\0'
    && (if rest == "" then (forall k | p <= k < |mem| :: mem[k] == '\0')
        else p + 1 + |rest| <= end && Holds(mem, p + 1, rest))
  }

  /** The token `s.value` was cut out of `before`, where `t` stood at `p0`: it now is the C string from
      `r` to `p`, nothing in front of `p0` changed, and behind its terminator stands `s.rest`. */
  ghost predicate Cut(before: seq<char>, mem: seq<char>, p0: nat, t: string, s: Scan, r: nat, p: nat) {
    && s.Scan?
    && p0 <= r && p == r + |s.value|
    && IsCString(mem, r, s.value)
    && SameBelow(before, mem, p0)
    && Leaves(mem, p, s.rest, p0 + |t|)
  }

  class SplitN3 {
    const line: array<char>
    const elements: array<int>
    var size: nat

    constructor (maxLineLength: nat, maxElements: nat)
      ensures fresh(line) && fresh(elements)
      ensures line.Length == maxLineLength && elements.Length == maxElements && size == 0
    {
      line := new char[maxLineLength];
      elements := new int[maxElements];
      size := 0;
    }

    /** Splits `text` into `elements`. The caller's part: the line fits with room for its terminator and
        one look-ahead behind it, no assertion is hit, and there are no more tokens than slots. */
    method ParseLine(text: string)
      requires line as object != elements
      requires NoNul(text) && |text| + 2 <= line.Length
      requires Tokens(text).Some? && |Tokens(text).value| <= elements.Length
      modifies `size, line, elements
      ensures size <= elements.Length && AreCStrings(line[..], elements[..size], Tokens(text).value)
    {
      hide *;
      CopyLine(text);
      var p := 0;
      size := 0;
      ghost var t, want := text, Tokens(text).value;
      ghost var done: seq<string> := [];
      NoneFound(line[..], p);
      assert elements[..size] == [];
      assert [] + want == want;
      while line[p] != '\0'
        invariant p < line.Length && Holds(line[..], p, t)
        invariant t != "" ==> p + |t| <= |text|
        invariant size == |done| <= elements.Length && Found(line[..], p, elements[..size], done)
        invariant Tokens(t).Some? && want == done + Tokens(t).value
        decreases |t|
      {
        LineStep(line[..], p, t, done, want);
        ghost var s, starts := ScanElement(t), elements[..size];
        p := TakeElement(p, t, done);
        done := done + [s.value];
        t := s.rest;
        if line[p] == '.' {
          break;
        }
      }
      if line[p] == '\0' {
        NoneLeft(line[..], p, t);
        assert done + [] == done;
      }
      AllFound(line[..], p, elements[..size], done);
    }

    /** One element, behind those already found; `p` is left behind its terminator. */
    method TakeElement(p0: nat, ghost t: string, ghost strings: seq<string>) returns (p: nat)
      requires line as object != elements && size < elements.Length
      requires Holds(line[..], p0, t) && p0 + |t| + 2 <= line.Length
      requires ScanElement(t).Scan? && Found(line[..], p0, elements[..size], strings)
      modifies `size, line, elements
      ensures size == old(size) + 1
      ensures Found(line[..], p, elements[..size], strings + [ScanElement(t).value])
      ensures p < line.Length && Holds(line[..], p, ScanElement(t).rest)
      ensures ScanElement(t).rest != "" ==> p + |ScanElement(t).rest| <= p0 + |t|
      ensures line[p] == if ScanElement(t).rest == "" then '\0' else ScanElement(t).rest[0]
    {
      hide *;
      ghost var before, starts := line[..], elements[..size];
      var r, q := ParseElement(p0, t);
      FoundOneMore(before, line[..], p0, t, starts, strings, ScanElement(t), r, q);
      elements[size] := r;
      size := size + 1;
      assert elements[..size] == starts + [r];
      p := q + 1;
    }

    /** strncpy(line_, text, MAX_LINE_LENGTH) */
    method CopyLine(text: string)
      requires NoNul(text) && |text| + 2 <= line.Length
      modifies line
      ensures Holds(line[..], 0, text)
    {
      forall i | 0 <= i < line.Length {
        line[i] := if i < |text| then text[i] else '\0';
      }
    }

    /** The index of the first character from `p0` on that is not whitespace. */
    method SkipWhitespace(p0: nat, ghost stop: nat) returns (p: nat)
      requires p0 <= stop < line.Length && !IsWhitespace(line[stop])
      ensures p0 <= p <= stop && !IsWhitespace(line[p])
      ensures forall k | p0 <= k < p :: IsWhitespace(line[k])
    {
      p := p0;
      while IsWhitespace(line[p])
        invariant p0 <= p <= stop
        invariant forall k | p0 <= k < p :: IsWhitespace(line[k])
        decreases stop - p
      {
        p := p + 1;
      }
    }

    method ParseElement(p0: nat, ghost t: string) returns (r: nat, p: nat)
      requires Holds(line[..], p0, t) && ScanElement(t).Scan?
      modifies line
      ensures Cut(old(line[..]), line[..], p0, t, ScanElement(t), r, p)
      ensures Trim(t) == t ==> r == p0
      decreases |t|, 2
    {
      hide *;
      ghost var before, u := line[..], Trim(t);
      p := SkipToElement(p0, t);
      ghost var p1 := p;
      r, p := ParseTrimmed(p, t, u);
      CutFurtherBack(before, line[..], p0, t, p1, u, ScanElement(t), r, p);
      p := SkipWhitespace(p, p);
    }

    method ParseTrimmed(p0: nat, ghost t: string, ghost u: string) returns (r: nat, p: nat)
      requires Holds(line[..], p0, u) && u == Trim(t) && ScanElement(t).Scan?
      requires |u| <= |t| && p0 < line.Length && line[p0] == if u == "" then '\0' else u[0]
      modifies line
      ensures Cut(old(line[..]), line[..], p0, u, ScanElement(t), r, p) && r == p0
      decreases |t|, 1
    {
      hide *;
      ElementCases(t, u);
      if line[p0] == '"' {
        r, p := ParseLiteral(p0, u);
      } else if line[p0] == '<' {
        r, p := ParseUri(p0, u);
      } else {
        r, p := ParseName(p0, u);
      }
    }

    method SkipToElement(p0: nat, ghost t: string) returns (p: nat)
      requires Holds(line[..], p0, t)
      ensures p0 <= p < line.Length && p + |Trim(t)| == p0 + |t| && |Trim(t)| <= |t| && Holds(line[..], p, Trim(t))
      ensures line[p] == if Trim(t) == "" then '\0' else Trim(t)[0]
    {
      p := SkipWhitespace(p0, p0 + |t|);
      Trimmed(line[..], p0, t, p);
    }

    method ParseLiteral(p0: nat, ghost t0: string) returns (r: nat, p: nat)
      requires Holds(line[..], p0, t0) && t0 != "" && t0[0] == '"' && ScanBody(t0[1..]).Scan?
      modifies line
      ensures Cut(old(line[..]), line[..], p0, t0, Prepend("\"", ScanBody(t0[1..])), r, p) && r == p0
      decreases |t0|, 0
    {
      hide *;
      ghost var before, whole := line[..], Prepend("\"", ScanBody(t0[1..]));
      var escaped := false;
      r := p0;
      p := p0 + 1;
      ghost var t, out := t0[1..], "\"";
      Opened(before, p0, t0);
      while line[p] != '\0'
        invariant p == p0 + |out| && p + |t| <= p0 + |t0| && p < line.Length
        invariant Holds(line[..], p, t) && Copied(before, line[..], p0, out)
        invariant if escaped then t != "" && t[0] == '"' && whole == Prepend(out + "\"", ScanBody(t[1..]))
                  else whole == Prepend(out, ScanBody(t))
        invariant whole.Scan?
        decreases |t|
      {
        Peek(line[..], p, t);
        BodyStep(out, t);
        if escaped {
          escaped := false;
          Advance(before, line[..], p0, out, t);
          out, t := out + [t[0]], t[1..];
        } else if line[p] == '\\' {
          if line[p + 1] == 'n' {
            ghost var mem := line[..];
            CloseGap(p, t);
            ghost var closed := line[..];
            line[p] := '\n';
            assert line[..] == closed[p := '\n'];
            Decoded(before, mem, closed, p0, out, t);
            out, t := out + "\n", t[2..];
          } else {
            if line[p + 1] == '"' {
              escaped := true;
            }
            Advance(before, line[..], p0, out, t);
            out, t := out + [t[0]], t[1..];
          }
        } else if line[p] == '"' {
          ghost var mem, q := line[..], p;
          p := FinishLiteral(p, t);
          CutJoins(before, mem, line[..], q, t, p0, t0, out, Prepend("\"", ScanSuffix(t[1..])), p);
          return;
        } else {
          Advance(before, line[..], p0, out, t);
          out, t := out + [t[0]], t[1..];
        }
        p := p + 1;
      }
      Unterminated(before, line[..], p0, t0, out, t);
    }

    /** memmove(p, p + 1, strlen(p)): the C string at `p` loses its first character. */
    method CloseGap(p: nat, ghost t: string)
      requires Holds(line[..], p, t) && t != ""
      modifies line
      ensures Holds(line[..], p, t[1..]) && SameBelow(old(line[..]), line[..], p)
    {
      var length := StringLength(p, t);
      forall k | p <= k < p + length {
        line[k] := line[k + 1];
      }
    }

    method StringLength(p: nat, ghost t: string) returns (n: nat)
      requires Holds(line[..], p, t)
      ensures n == |t|
    {
      n := 0;
      while line[p + n] != '\0'
        invariant n <= |t|
        decreases |t| - n
      {
        n := n + 1;
      }
    }

    /** From a closing quote at `p0`: the suffix is taken and terminated. */
    method FinishLiteral(p0: nat, ghost t: string) returns (p: nat)
      requires Holds(line[..], p0, t) && t != "" && t[0] == '"' && ScanSuffix(t[1..]).Scan?
      modifies line
      ensures Cut(old(line[..]), line[..], p0, t, Prepend("\"", ScanSuffix(t[1..])), p0, p)
      decreases |t|, 0
    {
      p := TakeSuffix(p0, t);
      ghost var after := line[..];
      line[p] := '\0';
      assert line[..] == after[p := '\0'];
    }

    /** What is left to do behind the suffix is to write the terminator. */
    method TakeSuffix(p0: nat, ghost t: string) returns (p: nat)
      requires Holds(line[..], p0, t) && t != "" && t[0] == '"' && ScanSuffix(t[1..]).Scan?
      modifies line
      ensures p < line.Length
      ensures Cut(old(line[..]), line[..][p := '\0'], p0, t, Prepend("\"", ScanSuffix(t[1..])), p0, p)
      decreases |t|, 0, 0
    {
      hide *;
      ghost var before, r := line[..], p0;
      SuffixPeek(before, p0, t);
      p := p0 + 1;
      if line[p] == '^' {
        p := p + 1;
        assert line[p] == '^';
        CaretIsName(t[2..]);
        r, p := ParseElement(p, t[2..]);
        SuffixJoins(before, line[..], p0, t, p);
      } else if line[p] == '@' {
        r, p := ParseName(p + 1, t[2..]);
        SuffixJoins(before, line[..], p0, t, p);
      } else {
        Unsuffixed(before, p0, t);
      }
    }

    method ParseName(p0: nat, ghost t: string) returns (r: nat, p: nat)
      requires Holds(line[..], p0, t)
      modifies line
      ensures Cut(old(line[..]), line[..], p0, t, ScanName(t), r, p) && r == p0
    {
      hide *;
      ghost var before := line[..];
      r, p := p0, p0;
      NameStarts(before, p0, t);
      while line[p] != '\0' && !IsWhitespace(line[p])
        invariant p0 <= p <= p0 + |t| < line.Length && WordEnd(t) == p - p0 + WordEnd(t[p - p0..])
        invariant line[..] == before
        decreases p0 + |t| - p
      {
        NameStep(before, p0, t, p - p0);
        p := p + 1;
      }
      NameStep(before, p0, t, p - p0);
      line[p] := '\0';
      assert line[..] == before[p := '\0'];
    }

    method ParseUri(p0: nat, ghost t: string) returns (r: nat, p: nat)
      requires Holds(line[..], p0, t)
      modifies line
      ensures Cut(old(line[..]), line[..], p0, t, ScanUri(t), r, p) && r == p0
    {
      hide *;
      ghost var before := line[..];
      r, p := p0, p0;
      NameStarts(before, p0, t);
      while line[p] != '\0'
        invariant p0 <= p <= p0 + |t| < line.Length && UriEnd(t) == p - p0 + UriEnd(t[p - p0..])
        invariant line[..] == before
        decreases p0 + |t| - p
      {
        UriStep(before, p0, t, p - p0);
        if line[p] == '>' {
          p := p + 1;
          line[p] := '\0';
          assert line[..] == before[p := '\0'];
          return;
        }
        p := p + 1;
      }
      UriStep(before, p0, t, p - p0);
      assert line[p] == '\0';
    }
  }

  lemma NameStarts(mem: seq<char>, p0: nat, t: string)
    requires Holds(mem, p0, t)
    ensures p0 + |t| < |mem| && t[0..] == t
  {
  }

  /** One turn of the name loop, `j` characters in; at the end of the word, writing a NUL cuts it out. */
  lemma NameStep(mem: seq<char>, p0: nat, t: string, j: nat)
    requires Holds(mem, p0, t) && j <= |t| && WordEnd(t) == j + WordEnd(t[j..])
    ensures mem[p0 + j] != '\0' && !IsWhitespace(mem[p0 + j]) ==> j < |t| && WordEnd(t) == j + 1 + WordEnd(t[j + 1..])
    ensures mem[p0 + j] == '\0' || IsWhitespace(mem[p0 + j]) ==>
      Cut(mem, mem[p0 + j := '\0'], p0, t, ScanName(t), p0, p0 + j)
  {
    assert j < |t| ==> mem[p0 + j] == t[j] && t[j..][0] == t[j] && t[j..][1..] == t[j + 1..];
    if mem[p0 + j] == '\0' || IsWhitespace(mem[p0 + j]) {
      Terminates(mem, p0, t, j);
    }
  }

  lemma UriStep(mem: seq<char>, p0: nat, t: string, j: nat)
    requires Holds(mem, p0, t) && j <= |t| && UriEnd(t) == j + UriEnd(t[j..])
    ensures mem[p0 + j] != '\0' && mem[p0 + j] != '>' ==> j < |t| && UriEnd(t) == j + 1 + UriEnd(t[j + 1..])
    ensures mem[p0 + j] == '>' ==> p0 + j + 1 < |mem|
    ensures mem[p0 + j] == '>' ==> Cut(mem, mem[p0 + j + 1 := '\0'], p0, t, ScanUri(t), p0, p0 + j + 1)
    ensures mem[p0 + j] == '\0' ==> Cut(mem, mem, p0, t, ScanUri(t), p0, p0 + j)
  {
    hide *;
    UriEndsAt(mem, p0, t, j);
    if mem[p0 + j] == '>' {
      Terminates(mem, p0, t, j + 1);
    } else if mem[p0 + j] == '\0' {
      NothingToTerminate(mem, p0, t);
    }
  }

  lemma UriEndsAt(mem: seq<char>, p0: nat, t: string, j: nat)
    requires Holds(mem, p0, t) && j <= |t| && UriEnd(t) == j + UriEnd(t[j..])
    ensures p0 + j < |mem|
    ensures mem[p0 + j] != '\0' && mem[p0 + j] != '>' ==> j < |t| && UriEnd(t) == j + 1 + UriEnd(t[j + 1..])
    ensures mem[p0 + j] == '>' ==> j < |t| && p0 + j + 1 < |mem| && ScanUri(t) == Scan(t[..j + 1], After(t, j + 1))
    ensures mem[p0 + j] == '\0' ==> j == |t| && ScanUri(t) == Scan(t, "")
  {
    if j < |t| {
      assert mem[p0 + j] == t[j] && t[j] != '\0';
      UriEndUnfolds(t, j);
    } else {
      assert mem[p0 + j] == '\0' && t[j..] == "" && t[..|t|] == t;
    }
  }

  lemma UriEndUnfolds(t: string, j: nat)
    requires j < |t|
    ensures UriEnd(t[j..]) == if t[j] == '>' then 1 else 1 + UriEnd(t[j + 1..])
  {
    assert t[j..][1..] == t[j + 1..];
  }

  /** Writing a NUL behind the first `j` characters of the string at `p0` cuts them out. */
  lemma Terminates(before: seq<char>, p0: nat, t: string, j: nat)
    requires Holds(before, p0, t) && j <= |t|
    ensures Cut(before, before[p0 + j := '\0'], p0, t, Scan(t[..j], After(t, j)), p0, p0 + j)
  {
  }

  lemma NothingToTerminate(before: seq<char>, p0: nat, t: string)
    requires Holds(before, p0, t)
    ensures Cut(before, before, p0, t, Scan(t, ""), p0, p0 + |t|)
  {
  }

  lemma {:induction false} TrimSkips(t: string, n: nat)
    requires n <= |t| && (forall k | 0 <= k < n :: IsWhitespace(t[k]))
    requires n < |t| ==> !IsWhitespace(t[n])
    ensures Trim(t) == t[n..]
  {
    if n > 0 {
      TrimSkips(t[1..], n - 1);
    }
  }

  lemma ElementCases(t: string, u: string)
    requires u == Trim(t)
    ensures u != "" && u[0] == '"' ==> ScanElement(t) == Prepend("\"", ScanBody(u[1..]))
    ensures u != "" && u[0] == '"' && ScanElement(t).Scan? ==> ScanBody(u[1..]).Scan?
    ensures u != "" && u[0] == '<' ==> ScanElement(t) == ScanUri(u)
    ensures u == "" || (u[0] != '"' && u[0] != '<') ==> ScanElement(t) == ScanName(u)
  {
  }

  lemma Trimmed(mem: seq<char>, p0: nat, t: string, p: nat)
    requires Holds(mem, p0, t)
    requires p0 <= p <= p0 + |t| && !IsWhitespace(mem[p])
    requires forall k | p0 <= k < p :: IsWhitespace(mem[k])
    ensures p + |Trim(t)| == p0 + |t|
    ensures Holds(mem, p, Trim(t))
    ensures mem[p] == if Trim(t) == "" then '\0' else Trim(t)[0]
  {
    hide IsWhitespace, Trim;
    var n := p - p0;
    assert forall k | 0 <= k < |t| :: t[k] == mem[p0 + k];
    forall k | 0 <= k < n ensures IsWhitespace(t[k]) {
      assert IsWhitespace(mem[p0 + k]);
    }
    TrimSkips(t, n);
    HoldsBehind(mem, p0, t, n);
  }

  lemma HoldsBehind(mem: seq<char>, p: nat, t: string, n: nat)
    requires Holds(mem, p, t) && n <= |t|
    ensures Holds(mem, p + n, t[n..]) && mem[p + n] == if n == |t| then '\0' else t[n]
  {
  }

  /** A token cut out of a suffix `u` of `t` is cut out of `t`. */
  lemma CutFurtherBack(before: seq<char>, mem: seq<char>, p0: nat, t: string, p1: nat, u: string, s: Scan, r: nat,
                       p: nat)
    requires Cut(before, mem, p1, u, s, r, p)
    requires p0 <= p1 && p1 + |u| == p0 + |t|
    ensures Cut(before, mem, p0, t, s, r, p)
    ensures p < |mem| && !IsWhitespace(mem[p])
  {
  }

  /** While a literal is read: below `p0` nothing changed, and `out` stands from `p0` on. */
  ghost predicate Copied(before: seq<char>, mem: seq<char>, p0: nat, out: string) {
    && p0 + |out| <= |mem|
    && SameBelow(before, mem, p0)
    && NoNul(out)
    && (forall k | p0 <= k < p0 + |out| :: mem[k] == out[k - p0])
  }

  lemma Peek(mem: seq<char>, p: nat, t: string)
    requires Holds(mem, p, t) && mem[p] != '\0'
    ensures t != "" && mem[p] == t[0] && p + 1 < |mem|
    ensures mem[p + 1] == if |t| > 1 then t[1] else '\0'
  {
  }

  lemma Advance(before: seq<char>, mem: seq<char>, p0: nat, out: string, t: string)
    requires Holds(mem, p0 + |out|, t) && t != "" && Copied(before, mem, p0, out)
    ensures p0 + |out| + 1 < |mem|
    ensures Holds(mem, p0 + |out| + 1, t[1..]) && Copied(before, mem, p0, out + [t[0]])
  {
  }

  lemma Opened(mem: seq<char>, p0: nat, t0: string)
    requires Holds(mem, p0, t0) && t0 != "" && t0[0] == '"' && ScanBody(t0[1..]).Scan?
    ensures p0 + 1 < |mem| && Holds(mem, p0 + 1, t0[1..]) && Copied(mem, mem, p0, "\"")
    ensures Prepend("\"", ScanBody(t0[1..])).Scan?
  {
  }

  /** How one step of the literal loop relates to the scanner. */
  lemma BodyStep(out: string, t: string)
    requires t != ""
    ensures t[0] == '\\' && |t| > 1 && t[1] == 'n' ==>
      Prepend(out, ScanBody(t)) == Prepend(out + "\n", ScanBody(t[2..]))
    ensures t[0] == '\\' && |t| > 1 && t[1] == '"' ==>
      Prepend(out, ScanBody(t)) == Prepend(out + [t[0]] + "\"", ScanBody(t[1..][1..]))
    ensures t[0] == '"' ==>
      Prepend(out, ScanBody(t)) == Prepend(out, Prepend("\"", ScanSuffix(t[1..])))
    ensures t[0] == '"' && Prepend(out, ScanBody(t)).Scan? ==> ScanSuffix(t[1..]).Scan?
    ensures t[0] != '"' && !(t[0] == '\\' && |t| > 1 && (t[1] == 'n' || t[1] == '"')) ==>
      Prepend(out, ScanBody(t)) == Prepend(out + [t[0]], ScanBody(t[1..]))
  {
    if t[0] == '\\' && |t| > 1 && t[1] == 'n' {
      PrependTwice(out, "\n", ScanBody(t[2..]));
    } else if t[0] == '\\' && |t| > 1 && t[1] == '"' {
      PrependTwice(out, "\\\"", ScanBody(t[2..]));
      assert out + "\\\"" == out + [t[0]] + "\"";
      assert t[1..][1..] == t[2..];
    } else if t[0] != '"' {
      PrependTwice(out, [t[0]], ScanBody(t[1..]));
    }
  }

  lemma Decoded(before: seq<char>, mem: seq<char>, closed: seq<char>, p0: nat, out: string, t: string)
    requires Copied(before, mem, p0, out) && Holds(mem, p0 + |out|, t) && |t| > 1
    requires Holds(closed, p0 + |out|, t[1..]) && SameBelow(mem, closed, p0 + |out|)
    ensures Copied(before, closed[p0 + |out| := '\n'], p0, out + "\n")
    ensures Holds(closed[p0 + |out| := '\n'], p0 + |out| + 1, t[2..])
  {
  }

  /** A literal that reaches the end of the line without a closing quote. */
  lemma Unterminated(before: seq<char>, mem: seq<char>, p0: nat, t0: string, out: string, t: string)
    requires Copied(before, mem, p0, out) && Holds(mem, p0 + |out|, t) && mem[p0 + |out|] == '\0'
    requires |out| <= |t0|
    ensures t == "" && Cut(before, mem, p0, t0, Prepend(out, ScanBody(t)), p0, p0 + |out|)
  {
  }

  lemma SuffixPeek(mem: seq<char>, p0: nat, t: string)
    requires Holds(mem, p0, t) && t != "" && t[0] == '"' && ScanSuffix(t[1..]).Scan?
    ensures p0 + 1 < |mem| && mem[p0 + 1] == if |t| > 1 then t[1] else '\0'
    ensures |t| > 1 ==> p0 + 2 < |mem|
    ensures |t| > 1 && t[1] == '^' ==> |t| > 2 && mem[p0 + 2] == t[2] == '^'
    ensures |t| > 1 && (t[1] == '^' || t[1] == '@') ==> Holds(mem, p0 + 2, t[2..])
  {
    assert |t| > 1 ==> t[1..][1..] == t[2..];
    hide ScanName;
  }

  lemma CaretIsName(t: string)
    requires t != "" && t[0] == '^'
    ensures ScanElement(t) == ScanName(t) && ScanName(t).Scan? && Trim(t) == t
  {
  }

  lemma Unsuffixed(mem: seq<char>, p0: nat, t: string)
    requires Holds(mem, p0, t) && t != "" && t[0] == '"'
    requires |t| > 1 ==> t[1] != '^' && t[1] != '@'
    ensures Cut(mem, mem[p0 + 1 := '\0'], p0, t, Prepend("\"", ScanSuffix(t[1..])), p0, p0 + 1)
  {
    Terminates(mem, p0, t, 1);
    assert t[..1] == "\"";
    assert |t| > 1 ==> t[1..][1..] == t[2..];
  }

  lemma SuffixJoins(before: seq<char>, after: seq<char>, p0: nat, t: string, p: nat)
    requires Holds(before, p0, t) && |t| > 1 && t[0] == '"'
    requires t[1] == '@' || (t[1] == '^' && |t| > 2 && t[2] == '^')
    requires Cut(before, after, p0 + 2, t[2..], ScanName(t[2..]), p0 + 2, p)
    ensures p < |after|
    ensures Cut(before, after[p := '\0'], p0, t, Prepend("\"", ScanSuffix(t[1..])), p0, p)
  {
    var out, s := ['"', t[1]], ScanName(t[2..]);
    assert Copied(before, before, p0, out);
    hide Cut, Copied, Holds, ScanName, Prepend;
    assert t[1..][1..] == t[2..];
    assert ScanSuffix(t[1..]) == Prepend([t[1]], s);
    PrependTwice("\"", [t[1]], s);
    assert "\"" + [t[1]] == out;
    CutJoins(before, before, after, p0 + 2, t[2..], p0, t, out, s, p);
    AlreadyTerminated(before, after, p0, t, Prepend("\"", ScanSuffix(t[1..])), p0, p);
  }

  lemma AlreadyTerminated(before: seq<char>, mem: seq<char>, p0: nat, t: string, s: Scan, r: nat, p: nat)
    requires Cut(before, mem, p0, t, s, r, p)
    ensures p < |mem| && mem[p := '\0'] == mem
  {
  }

  /** A token whose first part `out` already stands in front of what was just cut. */
  lemma CutJoins(before: seq<char>, mem: seq<char>, after: seq<char>, q: nat, t: string,
                 p0: nat, t0: string, out: string, s: Scan, p: nat)
    requires Cut(mem, after, q, t, s, q, p) && Copied(before, mem, p0, out)
    requires q == p0 + |out| && q + |t| <= p0 + |t0|
    ensures Cut(before, after, p0, t0, Prepend(out, s), p0, p)
  {
  }

  lemma LineStep(mem: seq<char>, p: nat, t: string, done: seq<string>, want: seq<string>)
    requires Holds(mem, p, t) && mem[p] != '\0'
    requires Tokens(t).Some? && want == done + Tokens(t).value
    ensures t != "" && ScanElement(t).Scan?
    ensures var s := ScanElement(t);
      && |s.rest| < |t| && |done| < |want|
      && (if s.rest != "" && s.rest[0] == '.' then want == done + [s.value]
          else Tokens(s.rest).Some? && want == done + [s.value] + Tokens(s.rest).value)
  {
    ScanShrinks(t);
    var s := ScanElement(t);
    hide ScanElement;
    if s.rest == "" || s.rest[0] != '.' {
      assert done + ([s.value] + Tokens(s.rest).value) == done + [s.value] + Tokens(s.rest).value;
    }
  }

  lemma NoneLeft(mem: seq<char>, p: nat, t: string)
    requires Holds(mem, p, t) && mem[p] == '\0'
    ensures Tokens(t) == Some([])
  {
  }

  /** The strings found so far stand where `starts` says, all below `p`. */
  ghost predicate Found(mem: seq<char>, p: nat, starts: seq<int>, strings: seq<string>) {
    && |starts| == |strings|
    && (forall k | 0 <= k < |starts| :: starts[k] + |strings[k]| < p && IsCString(mem, starts[k], strings[k]))
  }

  lemma NoneFound(mem: seq<char>, p: nat)
    ensures Found(mem, p, [], [])
  {
  }

  lemma AllFound(mem: seq<char>, p: nat, starts: seq<int>, strings: seq<string>)
    requires Found(mem, p, starts, strings)
    ensures AreCStrings(mem, starts, strings)
  {
  }

  lemma FoundOneMore(before: seq<char>, mem: seq<char>, p0: nat, t: string,
                     starts: seq<int>, strings: seq<string>, s: Scan, r: nat, p: nat)
    requires Found(before, p0, starts, strings) && Cut(before, mem, p0, t, s, r, p)
    requires p0 + |t| + 2 <= |mem|
    ensures Found(mem, p + 1, starts + [r], strings + [s.value])
    ensures p + 1 < |mem| && Holds(mem, p + 1, s.rest)
    ensures s.rest != "" ==> p + 1 + |s.rest| <= p0 + |t|
    ensures mem[p + 1] == if s.rest == "" then '\0' else s.rest[0]
  {
  }

  // ---------------------------------------------------------------------------------------------
  // Printing, and reading what was printed
  // ---------------------------------------------------------------------------------------------

  /** What a literal is made of. A quote is kept with its backslash; "\n" is decoded. */
  datatype Item = Plain(c: char) | EscapedQuote | EscapedNewline

  datatype Suffix = NoSuffix | Language(tag: string) | DataType(name: string)

  datatype Token =
    | Uri(body: string)
    | Name(text: string)
    | Literal(items: seq<Item>, suffix: Suffix)

  predicate IsWord(t: string) {
    forall i | 0 <= i < |t| :: t[i] !in {'\0', ' ', '\t', '\n', '\r'}
  }

  /** A plain backslash must not run into an `n` or into the closing quote. */
  predicate GoodItems(items: seq<Item>) {
    items == [] ||
    (GoodItems(items[1..]) &&
     (items[0].Plain? ==>
        && items[0].c != '"' && items[0].c != '\0'
        && (items[0].c == '\\' ==> |items| > 1 && items[1] != Plain('n'))))
  }

  predicate GoodToken(token: Token) {
    match token
    case Uri(body) => NoNul(body) && '>' !in body
    case Name(text) => text != "" && IsWord(text) && text[0] != '"' && text[0] != '<' && text[0] != '.'
    case Literal(items, suffix) =>
      && GoodItems(items)
      && (match suffix
          case NoSuffix => true
          case Language(tag) => IsWord(tag)
          case DataType(name) => IsWord(name))
  }

  function RawItem(item: Item): string {
    match item
    case Plain(c) => [c]
    case EscapedQuote => "\\\""
    case EscapedNewline => "\\n"
  }

  function DecodeItem(item: Item): string {
    match item
    case Plain(c) => [c]
    case EscapedQuote => "\\\""
    case EscapedNewline => "\n"
  }

  function Raw(items: seq<Item>): string {
    if items == [] then "" else RawItem(items[0]) + Raw(items[1..])
  }

  function Decode(items: seq<Item>): string {
    if items == [] then "" else DecodeItem(items[0]) + Decode(items[1..])
  }

  function SuffixText(suffix: Suffix): string {
    match suffix
    case NoSuffix => ""
    case Language(tag) => "@" + tag
    case DataType(name) => "^^" + name
  }

  function Print(token: Token): string {
    match token
    case Uri(body) => "<" + (body + ">")
    case Name(text) => text
    case Literal(items, suffix) => "\"" + (Raw(items) + ("\"" + SuffixText(suffix)))
  }

  /** The string the tokenizer should hand out for a token. */
  function Value(token: Token): string {
    match token
    case Uri(body) => "<" + (body + ">")
    case Name(text) => text
    case Literal(items, suffix) => "\"" + (Decode(items) + ("\"" + SuffixText(suffix)))
  }

  /** A token with the blanks in front of it, and the one blank behind it that the tokenizer overwrites. */
  datatype Piece = Piece(lead: string, token: Token, blank: char)

  predicate GoodPiece(piece: Piece) {
    && GoodToken(piece.token) && piece.blank in {' ', '\t', '\n', '\r'}
    && forall i | 0 <= i < |piece.lead| :: piece.lead[i] in {' ', '\t', '\n', '\r'}
  }

  /** A line: tokens with any blanks, tabs, line feeds and carriage returns in front and in between, at least one
      between two tokens, and exactly one in front of the final dot. */
  function Line(pieces: seq<Piece>): string {
    if pieces == [] then "."
    else pieces[0].lead + (Print(pieces[0].token) + ([pieces[0].blank] + Line(pieces[1..])))
  }

  function Values(pieces: seq<Piece>): seq<string> {
    if pieces == [] then [] else [Value(pieces[0].token)] + Values(pieces[1..])
  }

  /** What counts as white space, against the characters that separate tokens. */
  lemma BlanksAre(c: char)
    ensures IsWhitespace(c) <==> c in {' ', '\t', '\n', '\r'}
  {
  }

  lemma {:induction false} WordScanned(w: string, b: char, r: string)
    requires IsWord(w) && IsWhitespace(b)
    ensures ScanName(w + ([b] + r)) == Scan(w, r)
  {
    WordEndAt(w, [b] + r);
    assert (w + ([b] + r))[..|w|] == w;
    assert (w + ([b] + r))[|w| + 1..] == r;
  }

  lemma {:induction false} WordEndAt(w: string, r: string)
    requires IsWord(w) && r != "" && IsWhitespace(r[0])
    ensures WordEnd(w + r) == |w|
  {
    if w == "" {
      assert w + r == r;
    } else {
      assert (w + r)[1..] == w[1..] + r;
      BlanksAre(w[0]);
      WordEndAt(w[1..], r);
    }
  }

  lemma {:induction false} UriEndAt(body: string, r: string)
    requires '>' !in body
    ensures UriEnd(body + (">" + r)) == |body| + 1
  {
    if body == "" {
      assert body + (">" + r) == ">" + r;
    } else {
      assert (body + (">" + r))[1..] == body[1..] + (">" + r);
      UriEndAt(body[1..], r);
    }
  }

  lemma {:induction false} UriScanned(body: string, b: char, r: string)
    requires '>' !in body
    ensures ScanUri("<" + (body + ">") + ([b] + r)) == Scan("<" + (body + ">"), r)
  {
    var p := "<" + (body + ">");
    var t := p + ([b] + r);
    assert t[1..] == body + (">" + ([b] + r));
    UriEndAt(body, [b] + r);
    assert t[..|p|] == p;
    assert t[|p| + 1..] == r;
  }

  lemma {:induction false} ItemsScanned(items: seq<Item>, tail: string)
    requires GoodItems(items) && tail != "" && tail[0] == '"'
    ensures ScanBody(Raw(items) + tail) == Prepend(Decode(items), ScanBody(tail))
  {
    if items == [] {
      assert Raw(items) + tail == tail;
    } else {
      ItemsScanned(items[1..], tail);
      ItemScanned(items, Raw(items[1..]) + tail);
      RawSplits(items, tail);
      PrependTwice(DecodeItem(items[0]), Decode(items[1..]), ScanBody(tail));
    }
  }

  lemma RawSplits(items: seq<Item>, tail: string)
    requires items != []
    ensures Raw(items) + tail == RawItem(items[0]) + (Raw(items[1..]) + tail)
  {
  }

  lemma ItemScanned(items: seq<Item>, rest: string)
    requires items != [] && GoodItems(items) && Raw(items[1..]) <= rest
    ensures ScanBody(RawItem(items[0]) + rest) == Prepend(DecodeItem(items[0]), ScanBody(rest))
  {
    match items[0] {
      case Plain(c) => PlainStep(c, rest, items);
      case EscapedQuote => assert ("\\\"" + rest)[2..] == rest;
      case EscapedNewline => assert ("\\n" + rest)[2..] == rest;
    }
  }

  lemma PlainStep(c: char, rest: string, items: seq<Item>)
    requires items != [] && GoodItems(items) && items[0] == Plain(c) && Raw(items[1..]) <= rest
    ensures ScanBody([c] + rest) == Prepend([c], ScanBody(rest))
  {
    var t := [c] + rest;
    assert t[1..] == rest;
    if c == '\\' {
      assert items[1..][0] == items[1];
      assert t[1] == Raw(items[1..])[0];
    }
  }

  lemma SuffixScanned(suffix: Suffix, b: char, r: string)
    requires GoodToken(Literal([], suffix)) && IsWhitespace(b)
    ensures ScanSuffix(SuffixText(suffix) + ([b] + r)) == Scan(SuffixText(suffix), r)
  {
    hide ScanSuffix, IsWhitespace;
    match suffix {
      case NoSuffix =>
        assert SuffixText(suffix) + ([b] + r) == [b] + r;
        BlankScanned(b, r);
      case Language(tag) =>
        MarkedWordScanned('@', tag, b, r);
      case DataType(name) =>
        MarkedWordScanned('^', "^" + name, b, r);
        assert ['^'] + ("^" + name) == SuffixText(suffix);
    }
  }

  lemma BlankScanned(b: char, r: string)
    requires IsWhitespace(b)
    ensures ScanSuffix([b] + r) == Scan("", r)
  {
    assert ([b] + r)[1..] == r;
  }

  lemma MarkedWordScanned(mark: char, w: string, b: char, r: string)
    requires IsWord(w) && IsWhitespace(b)
    requires mark == '@' || (mark == '^' && w != "" && w[0] == '^')
    ensures ScanSuffix([mark] + w + ([b] + r)) == Scan([mark] + w, r)
  {
    var t := [mark] + w + ([b] + r);
    assert t[1..] == w + ([b] + r);
    WordScanned(w, b, r);
  }

  lemma Regroup(a: string, b: string, c: string, d: string, e: string)
    ensures (a + (b + (c + d))) + e == a + (b + (c + (d + e)))
  {
  }

  lemma QuotedText(t: string)
    requires t != "" && t[0] == '"'
    ensures ScanText(t) == Prepend("\"", ScanBody(t[1..]))
  {
  }

  lemma ClosingQuote(t: string)
    ensures ScanBody("\"" + t) == Prepend("\"", ScanSuffix(t))
  {
    assert ("\"" + t)[1..] == t;
  }

  lemma LiteralScanned(items: seq<Item>, suffix: Suffix, b: char, r: string)
    requires GoodToken(Literal(items, suffix)) && IsWhitespace(b)
    ensures ScanText(Print(Literal(items, suffix)) + ([b] + r)) == Scan(Value(Literal(items, suffix)), r)
  {
    var text, raw := SuffixText(suffix), Raw(items);
    var tail := "\"" + (text + ([b] + r));
    var t := "\"" + (raw + tail);
    SuffixScanned(suffix, b, r);
    ClosingQuote(text + ([b] + r));
    ItemsScanned(items, tail);
    hide Raw, Decode, SuffixText, ScanText, ScanBody, ScanSuffix, IsWhitespace;
    Regroup("\"", raw, "\"", text, [b] + r);
    assert t[1..] == raw + tail;
    QuotedText(t);
  }

  lemma TokenScanned(token: Token, b: char, r: string)
    requires GoodToken(token) && IsWhitespace(b)
    ensures ScanText(Print(token) + ([b] + r)) == Scan(Value(token), r)
  {
    match token {
      case Uri(body) => UriScanned(body, b, r);
      case Name(text) => WordScanned(text, b, r);
      case Literal(items, suffix) => LiteralScanned(items, suffix, b, r);
    }
  }

  /** Blanks in front of a token are skipped. */
  lemma LeadSkipped(lead: string, u: string)
    requires (forall i | 0 <= i < |lead| :: IsWhitespace(lead[i])) && u != "" && !IsWhitespace(u[0])
    ensures Trim(lead + u) == u
  {
    TrimSkips(lead + u, |lead|);
  }

  lemma PieceScanned(piece: Piece, r: string)
    requires GoodPiece(piece)
    ensures ScanElement(piece.lead + (Print(piece.token) + ([piece.blank] + r))) == Scan(Value(piece.token), r)
  {
    hide Print, Value, ScanText, GoodToken, Trim, IsWhitespace;
    BlanksAre(piece.blank);
    forall i | 0 <= i < |piece.lead| ensures IsWhitespace(piece.lead[i]) {
      BlanksAre(piece.lead[i]);
    }
    var u := Print(piece.token) + ([piece.blank] + r);
    FirstCharacter(piece.token, [piece.blank] + r);
    TokenScanned(piece.token, piece.blank, r);
    LeadSkipped(piece.lead, u);
  }

  /** Reading a line gives back every token, in order, whatever blanks stand between them. */
  lemma {:induction false} RoundTrip(pieces: seq<Piece>)
    requires pieces != [] && (forall piece | piece in pieces :: GoodPiece(piece))
    ensures Tokens(Line(pieces)) == Some(Values(pieces))
    decreases |pieces|
  {
    var rest := Line(pieces[1..]);
    PieceScanned(pieces[0], rest);
    hide ScanElement, Print, GoodPiece, Value;
    assert Line(pieces) != "";
    if pieces[1..] == [] {
      assert Values(pieces) == [Value(pieces[0].token)];
    } else {
      LineStarts(pieces[1..]);
      RoundTrip(pieces[1..]);
    }
  }

  /** Only the end of a line starts with a dot. */
  lemma LineStarts(pieces: seq<Piece>)
    requires pieces != [] && GoodPiece(pieces[0])
    ensures Line(pieces) != "" && Line(pieces)[0] != '.'
  {
    hide Print;
    FirstCharacter(pieces[0].token, [pieces[0].blank] + Line(pieces[1..]));
  }

  lemma FirstCharacter(token: Token, tail: string)
    requires GoodToken(token)
    ensures Print(token) + tail != "" && (Print(token) + tail)[0] != '.' && !IsWhitespace((Print(token) + tail)[0])
  {
  }

  lemma {:induction false} LineHasNoNul(pieces: seq<Piece>)
    requires forall piece | piece in pieces :: GoodPiece(piece)
    ensures NoNul(Line(pieces))
    decreases |pieces|
  {
    if pieces != [] {
      LineHasNoNul(pieces[1..]);
      assert GoodPiece(pieces[0]);
      PrintHasNoNul(pieces[0].token);
    }
  }

  lemma PrintHasNoNul(token: Token)
    requires GoodToken(token)
    ensures NoNul(Print(token))
  {
    if token.Literal? {
      RawHasNoNul(token.items);
    }
  }

  lemma {:induction false} RawHasNoNul(items: seq<Item>)
    requires GoodItems(items)
    ensures NoNul(Raw(items))
  {
    if items != [] {
      RawHasNoNul(items[1..]);
    }
  }

  lemma {:induction false} CountValues(pieces: seq<Piece>)
    ensures |Values(pieces)| == |pieces|
  {
    if pieces != [] {
      CountValues(pieces[1..]);
    }
  }

  /** The round trip through the buffer: every line of 1..16 tokens, whatever blanks stand between them, is split in
      place into exactly the C strings of its tokens. */
  method SplitPrinted(splitter: SplitN3, pieces: seq<Piece>)
    requires splitter.line as object != splitter.elements
    requires 1 <= |pieces| <= splitter.elements.Length && |Line(pieces)| + 2 <= splitter.line.Length
    requires forall piece | piece in pieces :: GoodPiece(piece)
    modifies splitter`size, splitter.line, splitter.elements
    ensures splitter.size == |pieces| <= splitter.elements.Length
    ensures AreCStrings(splitter.line[..], splitter.elements[..splitter.size], Values(pieces))
  {
    RoundTrip(pieces);
    LineHasNoNul(pieces);
    CountValues(pieces);
    splitter.ParseLine(Line(pieces));
  }
}
