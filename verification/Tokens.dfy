/** strtok, and what a whole run of it returns and leaves behind. */
module Tokens {
  import opened CTypes

  const NUL: char := '\0'

  datatype Pointer = Null | To(pos: nat)

  // ----- Spans -----

  /** The C string at a ends at n. */
  ghost predicate StringAt(mem: seq<char>, a: nat, n: nat) {
    a <= n < |mem| && mem[n] == NUL && forall i :: a <= i < n ==> mem[i] != NUL
  }

  ghost predicate Terminated(mem: seq<char>, a: nat) {
    exists n: nat :: StringAt(mem, a, n)
  }

  /** The end of the longest stretch from p on whose characters are, or are not, in set. */
  function SpanEnd(mem: seq<char>, p: nat, set_: CString, inside: bool): (e: nat)
    requires p <= |mem|
    ensures p <= e <= |mem|
    decreases |mem| - p
  {
    if p < |mem| && mem[p] != NUL && (mem[p] in set_) == inside then SpanEnd(mem, p + 1, set_, inside) else p
  }

  /** It is the longest such stretch. */
  lemma SpanFacts(mem: seq<char>, p: nat, set_: CString, inside: bool)
    requires p <= |mem|
    ensures var e := SpanEnd(mem, p, set_, inside);
      && (forall i :: p <= i < e ==> mem[i] != NUL && (mem[i] in set_) == inside)
      && (e < |mem| ==> mem[e] == NUL || (mem[e] in set_) != inside)
    decreases |mem| - p
  {
  }

  lemma SpanInString(mem: seq<char>, p: nat, n: nat, set_: CString, inside: bool)
    requires StringAt(mem, p, n)
    ensures SpanEnd(mem, p, set_, inside) <= n
  {
    SpanFacts(mem, p, set_, inside);
  }

  /** The inner loop of strspn, strcspn and strpbrk. */
  method Contains(set_: CString, c: char) returns (found: bool)
    ensures found == (c in set_)
  {
    var r := 0;
    while r < |set_|
      invariant 0 <= r <= |set_| && c !in set_[..r]
    {
      if c == set_[r] {
        return true;
      }
      r := r + 1;
    }
    return false;
  }

  method Strspn(buf: array<char>, s: nat, accept: CString) returns (i: nat)
    requires Terminated(buf[..], s)
    ensures s + i <= buf.Length && s + i == SpanEnd(buf[..], s, accept, true)
  {
    ghost var n: nat :| StringAt(buf[..], s, n);
    i := 0;
    while buf[s + i] != NUL
      invariant s + i <= n && SpanEnd(buf[..], s + i, accept, true) == SpanEnd(buf[..], s, accept, true)
      decreases n - i
    {
      var found := Contains(accept, buf[s + i]);
      if !found {
        break;
      }
      i := i + 1;
    }
  }

  method Strcspn(buf: array<char>, s: nat, reject: CString) returns (i: nat)
    requires Terminated(buf[..], s)
    ensures s + i <= buf.Length && s + i == SpanEnd(buf[..], s, reject, false)
  {
    ghost var n: nat :| StringAt(buf[..], s, n);
    i := 0;
    while buf[s + i] != NUL
      invariant s + i <= n && SpanEnd(buf[..], s + i, reject, false) == SpanEnd(buf[..], s, reject, false)
      decreases n - i
    {
      var found := Contains(reject, buf[s + i]);
      if found {
        break;
      }
      i := i + 1;
    }
  }

  /** The first character of s that is in accept, if any. */
  method Strpbrk(buf: array<char>, s0: nat, accept: CString) returns (r: Pointer)
    requires Terminated(buf[..], s0)
    ensures r.Null? ==> exists n: nat :: StringAt(buf[..], s0, n) && forall i :: s0 <= i < n ==> buf[i] !in accept
    ensures r.To? ==> s0 <= r.pos < buf.Length && buf[r.pos] in accept && forall i :: s0 <= i < r.pos ==> buf[i] != NUL && buf[i] !in accept
  {
    ghost var n: nat :| StringAt(buf[..], s0, n);
    var s := s0;
    while buf[s] != NUL
      invariant s0 <= s <= n && forall i :: s0 <= i < s ==> buf[i] !in accept
      decreases n - s
    {
      var found := Contains(accept, buf[s]);
      if found {
        return To(s);
      }
      s := s + 1;
    }
    assert buf[..][s] == NUL && s == n;
    return Null;
  }

  // ----- One call -----

  datatype Result = Result(mem: seq<char>, save: Pointer, token: Pointer)

  /** strtok once its saved pointer has been set. */
  function StrtokStep(mem: seq<char>, save: Pointer, delim: CString): Result
    requires save.To? ==> save.pos <= |mem|
  {
    if save.Null? then Result(mem, Null, Null)
    else
      var p := SpanEnd(mem, save.pos, delim, true);
      if p == |mem| || mem[p] == NUL then Result(mem, Null, Null)
      else
        var e := SpanEnd(mem, p, delim, false);
        if e < |mem| && mem[e] != NUL then Result(mem[e := NUL], To(e + 1), To(p))
        else Result(mem, Null, To(p))
  }

  class Tokenizer {
    var saveBuf: array<char>
    var saveptr: Pointer

    constructor ()
      ensures saveptr == Null
    {
      saveBuf := new char[0];
      saveptr := Null;
    }

    /** The saved pointer, if any, is at a C string in the buffer. */
    ghost predicate Valid()
      reads this, saveBuf
    {
      saveptr.To? ==> Terminated(saveBuf[..], saveptr.pos)
    }

    /** The second half of strtok: the token at the saved pointer ends at the next delimiter. */
    method TakeToken(delim: CString, ghost n: nat) returns (token: Pointer)
      requires saveptr.To? && StringAt(saveBuf[..], saveptr.pos, n)
      modifies `saveptr, saveBuf
      ensures Valid() && saveBuf == old(saveBuf) && token == old(saveptr) && old(saveptr).pos <= saveBuf.Length
      ensures var e := SpanEnd(old(saveBuf[..]), old(saveptr).pos, delim, false);
        if e < saveBuf.Length && old(saveBuf[..])[e] != NUL
        then saveBuf[..] == old(saveBuf[..])[e := NUL] && saveptr == To(e + 1)
        else saveBuf[..] == old(saveBuf[..]) && saveptr == Null
    {
      token := saveptr;
      SpanInString(saveBuf[..], saveptr.pos, n, delim, false);
      var len := Strcspn(saveBuf, saveptr.pos, delim);
      saveptr := To(saveptr.pos + len);
      if saveBuf[saveptr.pos] != NUL {
        saveBuf[saveptr.pos] := NUL;
        saveptr := To(saveptr.pos + 1);
        assert StringAt(saveBuf[..], saveptr.pos, n);
      } else {
        saveptr := Null;
      }
    }

    /** strtok(NULL, delim). */
    method Continue(delim: CString) returns (token: Pointer)
      requires Valid()
      modifies `saveptr, saveBuf
      ensures Valid() && saveBuf == old(saveBuf)
      ensures old(saveptr).To? ==> old(saveptr).pos <= saveBuf.Length
      ensures Result(saveBuf[..], saveptr, token) == StrtokStep(old(saveBuf[..]), old(saveptr), delim)
    {
      if saveptr.Null? {
        return Null;
      }
      ghost var n: nat :| StringAt(saveBuf[..], saveptr.pos, n);
      SpanInString(saveBuf[..], saveptr.pos, n, delim, true);
      var skip := Strspn(saveBuf, saveptr.pos, delim);
      saveptr := To(saveptr.pos + skip);
      assert StringAt(saveBuf[..], saveptr.pos, n);
      if saveBuf[saveptr.pos] == NUL {
        saveptr := Null;
        return Null;
      }
      hide StringAt, SpanEnd, Terminated;
      token := TakeToken(delim, n);
    }

    /** strtok(str, delim) with str at position start of buf. */
    method Start(buf: array<char>, start: nat, delim: CString) returns (token: Pointer)
      requires Terminated(buf[..], start)
      modifies this, buf
      ensures Valid() && saveBuf == buf
      ensures start <= buf.Length && Result(buf[..], saveptr, token) == StrtokStep(old(buf[..]), To(start), delim)
    {
      saveBuf, saveptr := buf, To(start);
      token := Continue(delim);
    }

    /** A client's loop: strtok(str, delim), then strtok(NULL, delim) up to k calls. */
    method Tokenize(buf: array<char>, start: nat, delim: CString, k: nat, ghost n: nat) returns (tokens: seq<Pointer>)
      requires k > 0 && StringAt(buf[..], start, n)
      modifies this, buf
      ensures Valid() && saveBuf == buf
      ensures var runs := Runs(old(buf[..]), start, n, delim);
        && tokens == Returned(runs, k)
        && (forall q :: 0 <= q < k ==> tokens[q] == if q < |runs| then To(runs[q].start) else Null)
        && buf[..] == Chop(old(buf[..]), runs[..Min(k, |runs|)], n)
    {
      ghost var whole := TokenCalls(buf[..], To(start), delim, k);
      StrtokRun(buf[..], start, n, delim, k);
      ReturnedStarts(Runs(buf[..], start, n, delim), k);
      hide StrtokStep, TokenCalls, Runs, Chop, Returned;
      FirstCall(buf[..], To(start), delim, k);
      var token := Start(buf, start, delim);
      tokens := [token];
      while |tokens| < k
        invariant 0 < |tokens| <= k && Valid() && saveBuf == buf && (saveptr.To? ==> saveptr.pos <= buf.Length)
        invariant whole.mem == TokenCalls(buf[..], saveptr, delim, k - |tokens|).mem
        invariant whole.tokens == tokens + TokenCalls(buf[..], saveptr, delim, k - |tokens|).tokens
        decreases k - |tokens|
      {
        FirstCall(buf[..], saveptr, delim, k - |tokens|);
        token := Continue(delim);
        AppendFirst(tokens, token, TokenCalls(buf[..], saveptr, delim, k - |tokens| - 1).tokens);
        tokens := tokens + [token];
      }
      LastCall(buf[..], saveptr, delim);
    }
  }

  // ----- Whole runs -----

  /** mem[i..j] is a maximal stretch of the string at a, up to n, without delimiters. */
  ghost predicate MaximalRun(mem: seq<char>, a: nat, n: nat, delim: CString, i: nat, j: nat)
    requires n < |mem|
  {
    && a <= i < j <= n
    && (forall k :: i <= k < j ==> mem[k] !in delim)
    && (i == a || mem[i - 1] in delim)
    && (j == n || mem[j] in delim)
  }

  datatype Token = Token(start: nat, end: nat)

  /** The maximal runs, in order. */
  ghost function Runs(mem: seq<char>, p: nat, n: nat, delim: CString): seq<Token>
    requires StringAt(mem, p, n)
    decreases n - p
  {
    SpanInString(mem, p, n, delim, true);
    var i := SpanEnd(mem, p, delim, true);
    if i == n then []
    else
      SpanInString(mem, i, n, delim, false);
      var j := SpanEnd(mem, i, delim, false);
      [Token(i, j)] + if j == n then [] else Runs(mem, j + 1, n, delim)
  }

  /** The first run of the string at p, if it has one, and the runs after it. */
  lemma NextRun(mem: seq<char>, p: nat, n: nat, delim: CString) returns (i: nat, j: nat)
    requires StringAt(mem, p, n)
    ensures p <= i == SpanEnd(mem, p, delim, true) <= n
    ensures i == n ==> Runs(mem, p, n, delim) == []
    ensures i < n ==>
      && i < j == SpanEnd(mem, i, delim, false) <= n
      && (j < n ==> mem[j] != NUL && StringAt(mem, j + 1, n))
      && (j == n ==> Runs(mem, p, n, delim) == [Token(i, j)])
      && (j < n ==> Runs(mem, p, n, delim) == [Token(i, j)] + Runs(mem, j + 1, n, delim))
  {
    SpanInString(mem, p, n, delim, true);
    SpanFacts(mem, p, delim, true);
    i := SpanEnd(mem, p, delim, true);
    if i == n {
      j := n;
    } else {
      SpanInString(mem, i, n, delim, false);
      SpanFacts(mem, i, delim, false);
      j := SpanEnd(mem, i, delim, false);
    }
  }

  lemma NoRun(mem: seq<char>, p: nat, n: nat, delim: CString, i: nat, j: nat)
    requires n < |mem| && forall k :: p <= k < n ==> mem[k] in delim
    ensures !MaximalRun(mem, p, n, delim, i, j)
  {
    if p <= i < j <= n { assert mem[i] in delim; }
  }

  /** The list holds exactly the maximal runs. */
  lemma {:induction false} RunsAreMaximal(mem: seq<char>, p: nat, n: nat, delim: CString, i: nat, j: nat)
    requires StringAt(mem, p, n)
    ensures Token(i, j) in Runs(mem, p, n, delim) <==> MaximalRun(mem, p, n, delim, i, j)
    decreases n - p
  {
    hide MaximalRun, SpanEnd, Runs;
    var s, e := NextRun(mem, p, n, delim);
    SpanFacts(mem, p, delim, true);
    if s == n {
      NoRun(mem, p, n, delim, i, j);
    } else {
      SpanFacts(mem, s, delim, false);
      FirstRun(mem, p, n, delim, s, e, i, j);
      if e < n {
        RunsAreMaximal(mem, e + 1, n, delim, i, j);
      }
    }
  }

  /** The runs come in order, a delimiter at least apart. */
  lemma {:induction false} RunsInOrder(mem: seq<char>, p: nat, n: nat, delim: CString, q: nat)
    requires StringAt(mem, p, n) && q < |Runs(mem, p, n, delim)|
    ensures var runs := Runs(mem, p, n, delim);
      && p <= runs[q].start < runs[q].end <= n
      && (q + 1 < |runs| ==> runs[q].end < runs[q + 1].start)
    decreases n - p
  {
    hide SpanEnd, Runs;
    var s, e := NextRun(mem, p, n, delim);
    if e < n {
      if q > 0 {
        RunsInOrder(mem, e + 1, n, delim, q - 1);
      } else if |Runs(mem, e + 1, n, delim)| > 0 {
        RunsInOrder(mem, e + 1, n, delim, 0);
      }
    }
  }

  /** Every maximal run is the first one, or one of the string after it. */
  lemma FirstRun(mem: seq<char>, p: nat, n: nat, delim: CString, s: nat, e: nat, i: nat, j: nat)
    requires StringAt(mem, p, n) && p <= s < e <= n
    requires (forall k :: p <= k < s ==> mem[k] in delim) && (forall k :: s <= k < e ==> mem[k] !in delim)
    requires e < n ==> mem[e] in delim
    ensures MaximalRun(mem, p, n, delim, i, j) <==>
      (i == s && j == e) || (e < n && MaximalRun(mem, e + 1, n, delim, i, j))
  {
    if p <= i < j <= n {
      if i < s {
        assert mem[i] in delim;
      } else if i == s {
        assert j < e ==> mem[j] !in delim;
        assert e < j ==> mem[e] in delim;
      } else if i < e {
        assert mem[i - 1] !in delim;
      } else if i == e {
        assert mem[e] in delim;
      }
    }
  }

  datatype RunResult = RunResult(tokens: seq<Pointer>, mem: seq<char>, save: Pointer)

  /** k calls in a row with the same delimiters. */
  function TokenCalls(mem: seq<char>, save: Pointer, delim: CString, k: nat): RunResult
    requires save.To? ==> save.pos <= |mem|
    decreases k
  {
    if k == 0 then RunResult([], mem, save)
    else
      var r := StrtokStep(mem, save, delim);
      var rest := TokenCalls(r.mem, r.save, delim, k - 1);
      RunResult([r.token] + rest.tokens, rest.mem, rest.save)
  }

  lemma FirstCall(mem: seq<char>, save: Pointer, delim: CString, k: nat)
    requires k > 0 && (save.To? ==> save.pos <= |mem|)
    ensures var r := StrtokStep(mem, save, delim);
      && (r.save.To? ==> r.save.pos <= |r.mem|)
      && TokenCalls(mem, save, delim, k).tokens == [r.token] + TokenCalls(r.mem, r.save, delim, k - 1).tokens
      && TokenCalls(mem, save, delim, k).mem == TokenCalls(r.mem, r.save, delim, k - 1).mem
  {
  }

  lemma LastCall(mem: seq<char>, save: Pointer, delim: CString)
    requires save.To? ==> save.pos <= |mem|
    ensures TokenCalls(mem, save, delim, 0) == RunResult([], mem, save)
  {
  }

  /** mem with a NUL at the end of every token of runs that does not reach the string's end n. */
  function Chop(mem: seq<char>, runs: seq<Token>, n: nat): (r: seq<char>)
    requires n < |mem|
    ensures |r| == |mem|
    decreases |runs|
  {
    if runs == [] then mem
    else Chop(if runs[0].end < n then mem[runs[0].end := NUL] else mem, runs[1..], n)
  }

  /** What k calls return for these tokens. */
  function Returned(runs: seq<Token>, k: nat): (r: seq<Pointer>)
    ensures |r| == k
  {
    seq(k, q => if 0 <= q < |runs| then To(runs[q].start) else Null)
  }

  lemma ReturnedStarts(runs: seq<Token>, k: nat)
    ensures forall q :: 0 <= q < k ==> Returned(runs, k)[q] == if q < |runs| then To(runs[q].start) else Null
  {
  }

  /** Once the saved pointer is NULL, every call returns NULL and changes nothing. */
  lemma {:induction false} NullForever(mem: seq<char>, delim: CString, k: nat)
    ensures TokenCalls(mem, Null, delim, k) == RunResult(Returned([], k), mem, Null)
  {
    if k > 0 {
      NullForever(mem, delim, k - 1);
      assert Returned([], k) == [Null] + Returned([], k - 1);
    }
  }

  lemma {:induction false} SpanFrame(mem: seq<char>, mem': seq<char>, p: nat, set_: CString, inside: bool)
    requires p <= |mem| == |mem'| && forall i :: p <= i < |mem| ==> mem[i] == mem'[i]
    ensures SpanEnd(mem, p, set_, inside) == SpanEnd(mem', p, set_, inside)
    decreases |mem| - p
  {
    if p < |mem| { SpanFrame(mem, mem', p + 1, set_, inside); }
  }

  /** The runs of a string do not depend on what lies before it. */
  lemma {:induction false} RunsFrame(mem: seq<char>, mem': seq<char>, p: nat, n: nat, delim: CString)
    requires StringAt(mem, p, n) && |mem| == |mem'| && forall i :: p <= i < |mem| ==> mem[i] == mem'[i]
    ensures StringAt(mem', p, n) && Runs(mem, p, n, delim) == Runs(mem', p, n, delim)
    decreases n - p
  {
    hide SpanEnd, Runs;
    assert StringAt(mem', p, n);
    var i, j := NextRun(mem, p, n, delim);
    var i', j' := NextRun(mem', p, n, delim);
    SpanFrame(mem, mem', p, delim, true);
    if i < n {
      SpanFrame(mem, mem', i, delim, false);
      if j < n { RunsFrame(mem, mem', j + 1, n, delim); }
    }
  }

  lemma RunsChopped(mem: seq<char>, j: nat, n: nat, delim: CString)
    requires StringAt(mem, j + 1, n)
    ensures StringAt(mem[j := NUL], j + 1, n)
    ensures Runs(mem[j := NUL], j + 1, n, delim) == Runs(mem, j + 1, n, delim)
  {
    RunsFrame(mem, mem[j := NUL], j + 1, n, delim);
  }

  /** k calls on the string at p return its first k runs, then NULL, and chop those runs off. */
  ghost predicate RunsReturned(mem: seq<char>, p: nat, n: nat, delim: CString, k: nat)
    requires StringAt(mem, p, n)
  {
    var runs, r := Runs(mem, p, n, delim), TokenCalls(mem, To(p), delim, k);
    r.tokens == Returned(runs, k) && r.mem == Chop(mem, runs[..Min(k, |runs|)], n)
  }

  /** strtok(s), then strtok(NULL) over and over: exactly the maximal runs of s, in order, then
      NULL for ever; the bytes changed are the delimiters right after the tokens returned. */
  lemma {:induction false} StrtokRun(mem: seq<char>, p: nat, n: nat, delim: CString, k: nat)
    requires StringAt(mem, p, n)
    ensures RunsReturned(mem, p, n, delim, k)
    decreases k
  {
    hide RunsReturned, SpanEnd, Runs;
    if k == 0 {
      NoCalls(mem, p, n, delim);
    } else {
      var i, j := NextRun(mem, p, n, delim);
      if i == n {
        NoTokens(mem, p, n, delim, k);
      } else if j == n {
        LastToken(mem, p, n, delim, k, i);
      } else {
        RunsChopped(mem, j, n, delim);
        StrtokRun(mem[j := NUL], j + 1, n, delim, k - 1);
        OneToken(mem, p, n, delim, k, i, j, mem[j := NUL]);
      }
    }
  }

  lemma NoCalls(mem: seq<char>, p: nat, n: nat, delim: CString)
    requires StringAt(mem, p, n)
    ensures RunsReturned(mem, p, n, delim, 0)
  {
    assert Runs(mem, p, n, delim)[..0] == [];
  }

  lemma NoTokens(mem: seq<char>, p: nat, n: nat, delim: CString, k: nat)
    requires StringAt(mem, p, n) && k > 0 && SpanEnd(mem, p, delim, true) == n
    ensures RunsReturned(mem, p, n, delim, k)
  {
    assert Runs(mem, p, n, delim) == [];
    NullForever(mem, delim, k - 1);
    assert Returned([], k) == [Null] + Returned([], k - 1);
  }

  lemma LastToken(mem: seq<char>, p: nat, n: nat, delim: CString, k: nat, i: nat)
    requires StringAt(mem, p, n) && k > 0 && i == SpanEnd(mem, p, delim, true) < n && SpanEnd(mem, i, delim, false) == n
    ensures RunsReturned(mem, p, n, delim, k)
  {
    var runs := Runs(mem, p, n, delim);
    assert runs == [Token(i, n)] && runs[..Min(k, 1)] == runs && runs[1..] == [];
    NullForever(mem, delim, k - 1);
    assert Returned(runs, k) == [To(i)] + Returned([], k - 1);
  }

  lemma FirstToken(mem: seq<char>, p: nat, n: nat, delim: CString, k: nat, i: nat, j: nat)
    requires StringAt(mem, p, n) && k > 0 && i == SpanEnd(mem, p, delim, true) < n && j == SpanEnd(mem, i, delim, false) < n
    requires mem[j] != NUL
    ensures var r, rest := TokenCalls(mem, To(p), delim, k), TokenCalls(mem[j := NUL], To(j + 1), delim, k - 1);
      r.tokens == [To(i)] + rest.tokens && r.mem == rest.mem
  {
  }

  lemma ReturnedCons(t: Token, rest: seq<Token>, k: nat)
    requires k > 0
    ensures Returned([t] + rest, k) == [To(t.start)] + Returned(rest, k - 1)
  {
  }

  lemma ChopCons(mem: seq<char>, t: Token, rest: seq<Token>, n: nat, m: nat)
    requires t.end < n < |mem| && m <= |rest|
    ensures Chop(mem, ([t] + rest)[..m + 1], n) == Chop(mem[t.end := NUL], rest[..m], n)
  {
    assert ([t] + rest)[..m + 1][0] == t && ([t] + rest)[..m + 1][1..] == rest[..m];
  }

  lemma OneToken(mem: seq<char>, p: nat, n: nat, delim: CString, k: nat, i: nat, j: nat, mem': seq<char>)
    requires StringAt(mem, p, n) && k > 0 && i == SpanEnd(mem, p, delim, true) < n && j == SpanEnd(mem, i, delim, false) < n
    requires n < |mem| && mem[j] != NUL && mem' == mem[j := NUL] && StringAt(mem', j + 1, n) && StringAt(mem, j + 1, n)
    requires Runs(mem', j + 1, n, delim) == Runs(mem, j + 1, n, delim)
    requires Runs(mem, p, n, delim) == [Token(i, j)] + Runs(mem, j + 1, n, delim)
    requires RunsReturned(mem', j + 1, n, delim, k - 1)
    ensures RunsReturned(mem, p, n, delim, k)
  {
    hide SpanEnd, StringAt, Runs, TokenCalls, Returned, Chop;
    FirstToken(mem, p, n, delim, k, i, j);
    var rest := Runs(mem, j + 1, n, delim);
    ReturnedCons(Token(i, j), rest, k);
    ChopCons(mem, Token(i, j), rest, n, Min(k - 1, |rest|));
  }

  /** Chopping writes a NUL at the ends listed, and nothing else. */
  lemma {:induction false} ChopSpec(mem: seq<char>, runs: seq<Token>, n: nat, x: nat)
    requires n < |mem| && x < |mem|
    decreases |runs|
    ensures Chop(mem, runs, n)[x] == if x < n && (exists q :: 0 <= q < |runs| && runs[q].end == x) then NUL else mem[x]
  {
    if runs != [] {
      ChopSpec(if runs[0].end < n then mem[runs[0].end := NUL] else mem, runs[1..], n, x);
      assert forall q :: 0 <= q < |runs[1..]| ==> runs[1..][q] == runs[q + 1];
      assert forall q :: 0 < q < |runs| ==> runs[q] == runs[1..][q - 1];
    }
  }

  /** Each token returned stands in place, untouched and with its NUL, and only delimiters of the
      string have been overwritten. */
  lemma TokensInPlace(mem: seq<char>, p: nat, n: nat, delim: CString, k: nat, q: nat)
    requires StringAt(mem, p, n) && q < k && q < |Runs(mem, p, n, delim)|
    ensures var t, after := Runs(mem, p, n, delim)[q], TokenCalls(mem, To(p), delim, k).mem;
      && |TokenCalls(mem, To(p), delim, k).tokens| == k && TokenCalls(mem, To(p), delim, k).tokens[q] == To(t.start)
      && p <= t.start < t.end <= n && |after| == |mem|
      && after[t.start..t.end] == mem[t.start..t.end] && after[t.end] == NUL
      && forall x :: 0 <= x < |mem| && after[x] != mem[x] ==> p <= x < n && mem[x] in delim
  {
    StrtokRun(mem, p, n, delim, k);
    RunsInOrder(mem, p, n, delim, q);
    var runs := Runs(mem, p, n, delim);
    var done, t := runs[..Min(k, |runs|)], runs[q];
    assert done[q] == t;
    ChopSpec(mem, done, n, t.end);
    RunsAreMaximal(mem, p, n, delim, t.start, t.end);
    var after := TokenCalls(mem, To(p), delim, k).mem;
    forall x | 0 <= x < |mem| && after[x] != mem[x] ensures p <= x < n && mem[x] in delim {
      OnlyDelimiters(mem, p, n, delim, done, x);
    }
  }

  lemma OnlyDelimiters(mem: seq<char>, p: nat, n: nat, delim: CString, done: seq<Token>, x: nat)
    requires StringAt(mem, p, n) && done <= Runs(mem, p, n, delim)
    requires x < |mem| && Chop(mem, done, n)[x] != mem[x]
    ensures p <= x < n && mem[x] in delim
  {
    ChopSpec(mem, done, n, x);
    var q :| 0 <= q < |done| && done[q].end == x;
    assert done[q] in Runs(mem, p, n, delim);
    RunsAreMaximal(mem, p, n, delim, done[q].start, done[q].end);
  }
}
