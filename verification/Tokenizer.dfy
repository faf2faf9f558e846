// k_strtok_r and k_strtok: splitting a string in place.
module Tokenizer {
  import opened Bytes

  // ---------------------------------------------------------------- specification

  // A buffer that ends in a NUL, and a place in it.
  predicate Inside(b: seq<byte>, p: nat) {
    p < |b| && b[|b| - 1] == NUL
  }

  // A delimiter string: its bytes up to the NUL.
  predicate Delimiters(delim: seq<byte>) {
    NUL !in delim
  }

  predicate EndsToken(c: byte, delim: seq<byte>) {
    c == NUL || c in delim
  }

  // The first byte from p on that is no delimiter.
  function SkipFrom(b: seq<byte>, p: nat, delim: seq<byte>): (i: nat)
    requires Inside(b, p) && Delimiters(delim)
    ensures p <= i < |b| && b[i] !in delim && forall j :: p <= j < i ==> b[j] in delim
    decreases |b| - p
  {
    if b[p] in delim then SkipFrom(b, p + 1, delim) else p
  }

  // The first delimiter or NUL from p on.
  function ScanFrom(b: seq<byte>, p: nat, delim: seq<byte>): (i: nat)
    requires Inside(b, p)
    ensures p <= i < |b| && EndsToken(b[i], delim) && forall j :: p <= j < i ==> !EndsToken(b[j], delim)
    decreases |b| - p
  {
    if EndsToken(b[p], delim) then p else ScanFrom(b, p + 1, delim)
  }

  // A token stands in b[from..to].
  datatype Span = Span(from: nat, to: nat)

  // The first token from p on.
  function FirstToken(b: seq<byte>, p: nat, delim: seq<byte>): (t: Option<Span>)
    requires Inside(b, p) && Delimiters(delim)
    ensures t.Some? ==> p <= t.value.from < t.value.to < |b|
  {
    var i := SkipFrom(b, p, delim);
    if b[i] == NUL then None else Some(Span(i, ScanFrom(b, i + 1, delim)))
  }

  // What the tokenizer keeps between calls: the buffer and *last.
  datatype TokState = TokState(buf: seq<byte>, last: Option<nat>)

  datatype CallResult = CallResult(token: Option<nat>, after: TokState)

  // Where a call starts: at s, or at *last when s is NULL.
  function StartOf(st: TokState, s: Option<nat>): Option<nat> {
    if s.Some? then s else st.last
  }

  function TokenCall(st: TokState, s: Option<nat>, delim: seq<byte>): CallResult
    requires Delimiters(delim) && (StartOf(st, s).Some? ==> Inside(st.buf, StartOf(st, s).value))
  {
    match StartOf(st, s)
    case None => CallResult(None, st)
    case Some(p) =>
      match FirstToken(st.buf, p, delim)
      case None => CallResult(None, st.(last := None))
      case Some(t) =>
        if st.buf[t.to] == NUL then CallResult(Some(t.from), st.(last := None))
        else CallResult(Some(t.from), TokState(st.buf[t.to := NUL], Some(t.to + 1)))
  }

  // ---------------------------------------------------------------- the code

  class Strtok {
    const str: array<byte>
    var last: Option<nat>

    constructor (str: array<byte>)
      ensures this.str == str && last == None
    {
      this.str := str;
      last := None;
    }

    ghost function S(): TokState
      reads this, str
    {
      TokState(str[..], last)
    }

    // The inner loop over the delimiter string.
    method IsDelimiter(c: byte, delim: seq<byte>) returns (found: bool)
      ensures found <==> c in delim
    {
      var i := 0;
      while i < |delim|
        invariant 0 <= i <= |delim|
        invariant c !in delim[..i]
      {
        if c == delim[i] {
          return true;
        }
        assert delim[..i + 1] == delim[..i] + [delim[i]];
        i := i + 1;
      }
      return false;
    }

    // From p to the first byte that can start a token.
    method SkipDelimiters(p: nat, delim: seq<byte>) returns (i: nat)
      requires Inside(str[..], p) && Delimiters(delim)
      ensures i == SkipFrom(str[..], p, delim)
    {
      i := p;
      var more := IsDelimiter(str[i], delim);
      while more
        invariant i < str.Length && more == (str[i] in delim)
        invariant SkipFrom(str[..], p, delim) == SkipFrom(str[..], i, delim)
        decreases str.Length - i
      {
        i := i + 1;
        more := IsDelimiter(str[i], delim);
      }
    }

    // Scan for the end of the token; the NUL of the delimiter string counts too.
    method ScanToken(p: nat, delim: seq<byte>) returns (i: nat)
      requires Inside(str[..], p)
      ensures i == ScanFrom(str[..], p, delim)
    {
      i := p;
      while true
        invariant Inside(str[..], i)
        invariant ScanFrom(str[..], p, delim) == ScanFrom(str[..], i, delim)
        decreases str.Length - i
      {
        var c := str[i];
        var found := IsDelimiter(c, delim);
        if found || c == NUL {
          break;
        }
        i := i + 1;
      }
    }

    // k_strtok_r; None is NULL.
    method Next(s: Option<nat>, delim: seq<byte>) returns (token: Option<nat>)
      requires Delimiters(delim) && (StartOf(S(), s).Some? ==> Inside(str[..], StartOf(S(), s).value))
      modifies this, str
      ensures TokenCall(old(S()), s, delim) == CallResult(token, S())
    {
      var start := if s == None then last else s;
      if start == None {
        return None;
      }
      var i := SkipDelimiters(start.value, delim);
      if str[i] == NUL {
        last := None;
        return None;
      }
      var j := ScanToken(i + 1, delim);
      if str[j] == NUL {
        last := None;
      } else {
        str[j] := NUL;
        last := Some(j + 1);
      }
      return Some(i);
    }
  }

  // ---------------------------------------------------------------- all tokens

  // The tokens from p on, up to the first NUL.
  function Tokens(b: seq<byte>, p: nat, delim: seq<byte>): seq<Span>
    requires Inside(b, p) && Delimiters(delim)
    decreases |b| - p
  {
    match FirstToken(b, p, delim)
    case None => []
    case Some(t) => [t] + if b[t.to] == NUL then [] else Tokens(b, t.to + 1, delim)
  }

  // The tokens behind the first one.
  function Rest(b: seq<byte>, t: Span, delim: seq<byte>): seq<Span>
    requires t.to < |b| && Inside(b, t.to) && Delimiters(delim)
  {
    if b[t.to] == NUL then [] else Tokens(b, t.to + 1, delim)
  }

  lemma TokensStep(b: seq<byte>, p: nat, delim: seq<byte>)
    requires Inside(b, p) && Delimiters(delim)
    ensures FirstToken(b, p, delim).None? ==> Tokens(b, p, delim) == []
    ensures FirstToken(b, p, delim).Some? ==>
              Tokens(b, p, delim) == [FirstToken(b, p, delim).value] + Rest(b, FirstToken(b, p, delim).value, delim)
  {
    hide FirstToken;
  }

  // A longest run of bytes that are no delimiters, in the string that starts at p.
  ghost predicate MaximalRun(b: seq<byte>, p: nat, delim: seq<byte>, t: Span) {
    && p <= t.from < t.to < |b|
    && (forall i :: p <= i < t.to ==> b[i] != NUL)
    && (forall i :: t.from <= i < t.to ==> b[i] !in delim)
    && (t.from == p || b[t.from - 1] in delim)
    && EndsToken(b[t.to], delim)
  }

  lemma FirstTokenIsRun(b: seq<byte>, p: nat, delim: seq<byte>)
    requires Inside(b, p) && Delimiters(delim) && FirstToken(b, p, delim).Some?
    ensures MaximalRun(b, p, delim, FirstToken(b, p, delim).value)
  {
    var i := SkipFrom(b, p, delim);
    assert i > p ==> b[i - 1] in delim;
  }

  lemma FirstTokenIsFirst(b: seq<byte>, p: nat, delim: seq<byte>, t: Span)
    requires Inside(b, p) && Delimiters(delim) && MaximalRun(b, p, delim, t)
    ensures FirstToken(b, p, delim).Some?
    ensures FirstToken(b, p, delim).value == t || FirstToken(b, p, delim).value.to < t.from
  {
    var i := SkipFrom(b, p, delim);
    assert b[t.from] !in delim && b[t.from] != NUL;
    assert i <= t.from && b[i] != NUL;
    if i < t.from {
      assert b[t.from - 1] in delim;
    }
  }

  // Behind the first token the runs are those of the rest of the string.
  lemma RunsBehindFirst(b: seq<byte>, p: nat, delim: seq<byte>, t: Span)
    requires Inside(b, p) && Delimiters(delim) && FirstToken(b, p, delim).Some?
    ensures var first := FirstToken(b, p, delim).value;
            t != first ==>
              (MaximalRun(b, p, delim, t) <==> b[first.to] != NUL && MaximalRun(b, first.to + 1, delim, t))
  {
    FirstTokenIsRun(b, p, delim);
    if MaximalRun(b, p, delim, t) {
      FirstTokenIsFirst(b, p, delim, t);
    }
  }

  // The tokens are exactly the maximal runs ...
  lemma {:induction false} TokensAreMaximalRuns(b: seq<byte>, p: nat, delim: seq<byte>, t: Span)
    requires Inside(b, p) && Delimiters(delim)
    ensures t in Tokens(b, p, delim) <==> MaximalRun(b, p, delim, t)
    decreases |b| - p
  {
    hide MaximalRun, FirstToken, Tokens;
    TokensStep(b, p, delim);
    var first := FirstToken(b, p, delim);
    if first.Some? {
      FirstTokenIsRun(b, p, delim);
      RunsBehindFirst(b, p, delim, t);
      if b[first.value.to] != NUL {
        TokensAreMaximalRuns(b, first.value.to + 1, delim, t);
      }
    } else if MaximalRun(b, p, delim, t) {
      FirstTokenIsFirst(b, p, delim, t);
    }
  }

  lemma TokenBounds(b: seq<byte>, p: nat, delim: seq<byte>, i: nat)
    requires Inside(b, p) && Delimiters(delim) && i < |Tokens(b, p, delim)|
    ensures p <= Tokens(b, p, delim)[i].from < Tokens(b, p, delim)[i].to < |b|
  {
    hide Tokens;
    var t := Tokens(b, p, delim)[i];
    assert t in Tokens(b, p, delim);
    TokensAreMaximalRuns(b, p, delim, t);
  }

  // Token i of the string is token i - 1 of what is behind the first one.
  lemma LaterToken(b: seq<byte>, p: nat, delim: seq<byte>, i: nat)
    requires Inside(b, p) && Delimiters(delim) && 0 < i < |Tokens(b, p, delim)|
    ensures var q := Tokens(b, p, delim)[0].to + 1;
            && p < q && Inside(b, q) && |Tokens(b, p, delim)| == |Tokens(b, q, delim)| + 1
            && Tokens(b, p, delim)[i] == Tokens(b, q, delim)[i - 1]
  {
    TokensStep(b, p, delim);
    hide FirstToken, Tokens;
    var first := FirstToken(b, p, delim).value;
    var rest := Rest(b, first, delim);
    assert ([first] + rest)[i] == rest[i - 1];
  }

  // ... from left to right, with a gap of at least one byte.
  lemma {:induction false} TokensAscend(b: seq<byte>, p: nat, delim: seq<byte>, i: nat, j: nat)
    requires Inside(b, p) && Delimiters(delim) && i < j < |Tokens(b, p, delim)|
    ensures Tokens(b, p, delim)[i].to < Tokens(b, p, delim)[j].from
    decreases |b| - p
  {
    hide Tokens;
    var q := Tokens(b, p, delim)[0].to + 1;
    LaterToken(b, p, delim, j);
    if i > 0 {
      LaterToken(b, p, delim, i);
      TokensAscend(b, q, delim, i - 1, j - 1);
    } else {
      TokenBounds(b, q, delim, j - 1);
    }
  }

  // ---------------------------------------------------------------- the n-th call

  // The first call is given p, the later ones NULL.
  function NthCall(b: seq<byte>, p: nat, delim: seq<byte>, n: nat): (r: CallResult)
    requires Inside(b, p) && Delimiters(delim)
    ensures |r.after.buf| == |b| && r.after.buf[|b| - 1] == NUL
    ensures r.after.last.Some? ==> Inside(r.after.buf, r.after.last.value)
  {
    if n == 0 then TokenCall(TokState(b, None), Some(p), delim)
    else TokenCall(NthCall(b, p, delim, n - 1).after, None, delim)
  }

  // b with the ends of the first n tokens overwritten.
  ghost predicate Cut(b: seq<byte>, tokens: seq<Span>, n: nat, b': seq<byte>) {
    && |b'| == |b|
    && forall i :: 0 <= i < |b| ==> b'[i] == if EndsOne(tokens, n, i) then NUL else b[i]
  }

  predicate EndsOne(tokens: seq<Span>, n: nat, i: nat) {
    exists k :: 0 <= k < n && k < |tokens| && tokens[k].to == i
  }

  // The rest of the string reads the same in both buffers.
  lemma SameFirstToken(b: seq<byte>, b': seq<byte>, p: nat, delim: seq<byte>)
    requires Inside(b, p) && Delimiters(delim) && |b'| == |b| && forall i :: p <= i < |b| ==> b'[i] == b[i]
    ensures FirstToken(b', p, delim) == FirstToken(b, p, delim)
  {
    SameScan(b, b', p, delim);
    var i := SkipFrom(b, p, delim);
    if b[i] != NUL {
      SameScan(b, b', i + 1, delim);
    }
  }

  lemma SameScan(b: seq<byte>, b': seq<byte>, p: nat, delim: seq<byte>)
    requires Inside(b, p) && Delimiters(delim) && |b'| == |b| && forall i :: p <= i < |b| ==> b'[i] == b[i]
    ensures SkipFrom(b', p, delim) == SkipFrom(b, p, delim)
    ensures ScanFrom(b', p, delim) == ScanFrom(b, p, delim)
  {
  }

  // What is left after call n.
  ghost predicate Remaining(b: seq<byte>, p: nat, delim: seq<byte>, n: nat, last: Option<nat>)
    requires Inside(b, p) && Delimiters(delim)
  {
    var tokens := Tokens(b, p, delim);
    match last
    case None => n + 1 >= |tokens|
    case Some(q) =>
      && Inside(b, q) && n < |tokens| && q == tokens[n].to + 1
      && tokens == tokens[..n + 1] + Tokens(b, q, delim)
  }

  ghost predicate CallMeets(b: seq<byte>, p: nat, delim: seq<byte>, n: nat, r: CallResult)
    requires Inside(b, p) && Delimiters(delim)
  {
    var tokens := Tokens(b, p, delim);
    && r.token == (if n < |tokens| then Some(tokens[n].from) else None)
    && Cut(b, tokens, n + 1, r.after.buf)
    && Remaining(b, p, delim, n, r.after.last)
  }

  // The end of token n is overwritten too; at the end of the string that changes nothing.
  lemma CutNext(b: seq<byte>, tokens: seq<Span>, n: nat, buf: seq<byte>)
    requires Cut(b, tokens, n, buf)
    ensures n >= |tokens| ==> Cut(b, tokens, n + 1, buf)
    ensures n < |tokens| && tokens[n].to < |b| ==> Cut(b, tokens, n + 1, buf[tokens[n].to := NUL])
    ensures n < |tokens| && tokens[n].to < |b| && b[tokens[n].to] == NUL ==> Cut(b, tokens, n + 1, buf)
  {
    forall i
      ensures n >= |tokens| ==> (EndsOne(tokens, n + 1, i) <==> EndsOne(tokens, n, i))
      ensures n < |tokens| ==> (EndsOne(tokens, n + 1, i) <==> EndsOne(tokens, n, i) || tokens[n].to == i)
    {
    }
  }

  // Behind the ends of the first n tokens the buffer is as it was.
  lemma CutTail(b: seq<byte>, tokens: seq<Span>, n: nat, buf: seq<byte>, q: nat)
    requires Cut(b, tokens, n, buf)
    requires forall k :: 0 <= k < n && k < |tokens| ==> tokens[k].to < q
    ensures |buf| == |b| && forall i :: q <= i < |b| ==> buf[i] == b[i]
  {
    forall i: nat | q <= i < |b|
      ensures !EndsOne(tokens, n, i)
    {
    }
  }

  lemma SplitNext(tokens: seq<Span>, n: nat, t: Span, rest: seq<Span>)
    requires n <= |tokens| && tokens == tokens[..n] + ([t] + rest)
    ensures n < |tokens| && tokens[n] == t && tokens == tokens[..n + 1] + rest
    ensures rest == [] ==> n + 1 == |tokens|
  {
    assert tokens[n] == t;
    assert tokens[..n + 1] == tokens[..n] + [t];
  }

  // A call that finds the rest of the string at q.
  lemma CallAtRest(b: seq<byte>, p: nat, delim: seq<byte>, n: nat, buf: seq<byte>, q: nat)
    requires Inside(b, p) && Delimiters(delim) && Inside(b, q) && Inside(buf, q)
    requires n <= |Tokens(b, p, delim)|
    requires Tokens(b, p, delim) == Tokens(b, p, delim)[..n] + Tokens(b, q, delim)
    requires Cut(b, Tokens(b, p, delim), n, buf)
    requires forall k :: 0 <= k < n ==> Tokens(b, p, delim)[k].to < q
    ensures CallMeets(b, p, delim, n, TokenCall(TokState(buf, Some(q)), None, delim))
  {
    hide Cut, Tokens, FirstToken, SkipFrom, ScanFrom;
    var tokens := Tokens(b, p, delim);
    CutTail(b, tokens, n, buf, q);
    SameFirstToken(b, buf, q, delim);
    TokensStep(b, q, delim);
    CutNext(b, tokens, n, buf);
    var first := FirstToken(b, q, delim);
    if first.Some? {
      SplitNext(tokens, n, first.value, Rest(b, first.value, delim));
    }
  }

  // Call n gives token n, or NULL for ever once there are no more;
  // only the ends of the tokens given are overwritten.
  lemma {:induction false} NthCallGivesToken(b: seq<byte>, p: nat, delim: seq<byte>, n: nat)
    requires Inside(b, p) && Delimiters(delim)
    ensures CallMeets(b, p, delim, n, NthCall(b, p, delim, n))
  {
    hide Tokens, FirstToken, TokenCall, Cut;
    var tokens := Tokens(b, p, delim);
    if n == 0 {
      FirstCallAtRest(b, p, delim);
    } else {
      NthCallGivesToken(b, p, delim, n - 1);
      var st := NthCall(b, p, delim, n - 1).after;
      if st.last.Some? {
        EndsBefore(b, p, delim, n);
        CallAtRest(b, p, delim, n, st.buf, st.last.value);
        LastGiven(st, st.last.value, delim);
      } else {
        CutNext(b, tokens, n, st.buf);
        LastNull(st, delim);
      }
    }
  }

  lemma LastNull(st: TokState, delim: seq<byte>)
    requires Delimiters(delim) && st.last == None
    ensures TokenCall(st, None, delim) == CallResult(None, st)
  {
  }

  // A NULL argument means *last.
  lemma LastGiven(st: TokState, q: nat, delim: seq<byte>)
    requires Delimiters(delim) && st.last == Some(q) && Inside(st.buf, q)
    ensures TokenCall(st, None, delim) == TokenCall(TokState(st.buf, Some(q)), None, delim)
  {
  }

  lemma FirstCallAtRest(b: seq<byte>, p: nat, delim: seq<byte>)
    requires Inside(b, p) && Delimiters(delim)
    ensures CallMeets(b, p, delim, 0, NthCall(b, p, delim, 0))
  {
    hide Tokens, FirstToken, CallMeets, TokenCall;
    SplitAtStart(Tokens(b, p, delim));
    NothingCut(b, Tokens(b, p, delim));
    CallAtRest(b, p, delim, 0, b, p);
    FirstCallGiven(b, p, delim);
  }

  lemma SplitAtStart(tokens: seq<Span>)
    ensures tokens == tokens[..0] + tokens
  {
  }

  lemma NothingCut(b: seq<byte>, tokens: seq<Span>)
    ensures Cut(b, tokens, 0, b)
  {
  }

  // The argument of the first call plays the part of *last.
  lemma FirstCallGiven(b: seq<byte>, p: nat, delim: seq<byte>)
    requires Inside(b, p) && Delimiters(delim)
    ensures NthCall(b, p, delim, 0) == TokenCall(TokState(b, Some(p)), None, delim)
  {
    hide FirstToken;
  }

  lemma EndsBefore(b: seq<byte>, p: nat, delim: seq<byte>, n: nat)
    requires Inside(b, p) && Delimiters(delim) && 0 < n <= |Tokens(b, p, delim)|
    ensures forall k :: 0 <= k < n ==> Tokens(b, p, delim)[k].to <= Tokens(b, p, delim)[n - 1].to
  {
    hide Tokens;
    forall k | 0 <= k < n
      ensures Tokens(b, p, delim)[k].to <= Tokens(b, p, delim)[n - 1].to
    {
      if k < n - 1 {
        TokensAscend(b, p, delim, k, n - 1);
        TokenBounds(b, p, delim, n - 1);
      }
    }
  }

  // No token ends inside another one.
  lemma NoEndInside(b: seq<byte>, p: nat, delim: seq<byte>, n: nat, k: nat, i: nat)
    requires Inside(b, p) && Delimiters(delim) && k < |Tokens(b, p, delim)|
    requires Tokens(b, p, delim)[k].from <= i < Tokens(b, p, delim)[k].to
    ensures !EndsOne(Tokens(b, p, delim), n, i)
  {
    hide Tokens;
    var tokens := Tokens(b, p, delim);
    forall m: nat | m < n && m < |tokens|
      ensures tokens[m].to != i
    {
      if m < k {
        TokensAscend(b, p, delim, m, k);
      } else if k < m {
        TokensAscend(b, p, delim, k, m);
        TokenBounds(b, p, delim, m);
      }
    }
  }

  // After any number of calls the tokens given so far stand in the buffer as C strings, unchanged.
  lemma TokensStayReadable(b: seq<byte>, p: nat, delim: seq<byte>, n: nat, k: nat)
    requires Inside(b, p) && Delimiters(delim) && k <= n && k < |Tokens(b, p, delim)|
    ensures var t, buf := Tokens(b, p, delim)[k], NthCall(b, p, delim, n).after.buf;
            && p <= t.from < t.to < |buf|
            && buf[t.from..t.to] == b[t.from..t.to] && NUL !in b[t.from..t.to] && buf[t.to] == NUL
  {
    hide Tokens, FirstToken, NthCall, Remaining;
    var tokens := Tokens(b, p, delim);
    var t, m := tokens[k], n + 1;
    NthCallGivesToken(b, p, delim, n);
    assert t in tokens;
    TokensAreMaximalRuns(b, p, delim, t);
    forall i: nat | t.from <= i < t.to
      ensures !EndsOne(tokens, m, i)
    {
      NoEndInside(b, p, delim, m, k, i);
    }
    assert EndsOne(tokens, m, t.to);
  }

  // Bytes that are not delimiters are never overwritten, nor are bytes in front of p.
  lemma OnlyDelimitersOverwritten(b: seq<byte>, p: nat, delim: seq<byte>, n: nat, i: nat)
    requires Inside(b, p) && Delimiters(delim) && i < |b|
    ensures var buf := NthCall(b, p, delim, n).after.buf;
            buf[i] != b[i] ==> i > p && b[i] in delim && buf[i] == NUL
  {
    hide Tokens, FirstToken, NthCall, Remaining;
    var tokens := Tokens(b, p, delim);
    NthCallGivesToken(b, p, delim, n);
    if EndsOne(tokens, n + 1, i) {
      var k :| 0 <= k < n + 1 && k < |tokens| && tokens[k].to == i;
      assert tokens[k] in tokens;
      TokensAreMaximalRuns(b, p, delim, tokens[k]);
    }
  }
}
