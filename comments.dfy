/** Comment lines in a header: a comment line inserted where a token read
    starts leaves the header as `load_info_from_file` reads it unchanged.
    A `#` glued to the end of a token is a different matter: it throws that
    token away (see `Scenarios.GluedCommentRejected`). */
module Comments {
  import opened LibC
  import opened Types
  import opened Tokenizer
  import opened Header

  /** `n` successive token reads from `p`, each starting where the one
      before stopped, whether it succeeded or not. */
  function Reads(s: seq<byte>, p: nat, n: nat): (rs: seq<TokResult>)
    requires p <= |s|
    ensures |rs| == n
    ensures forall j :: 0 <= j < n ==> p <= rs[j].next <= |s|
    decreases n
  {
    if n == 0 then []
    else
      var t := NextToken(s, p);
      [t] + Reads(s, t.next, n - 1)
  }

  /** A read moved `d` bytes further on: the same outcome and token. */
  function Later(r: TokResult, d: nat): (r': TokResult)
    ensures r'.TokOk? == r.TokOk? && (r.TokOk? ==> r'.token == r.token) && r'.next == r.next + d
  {
    r.(next := r.next + d)
  }

  /** Two runs of reads that succeed and fail at the same steps, with the
      same tokens; only the positions may differ. */
  predicate SameTokens(rs: seq<TokResult>, qs: seq<TokResult>) {
    && |rs| == |qs|
    && forall j :: 0 <= j < |rs| ==>
         rs[j].TokOk? == qs[j].TokOk? && (rs[j].TokOk? ==> rs[j].token == qs[j].token)
  }

  /** The value `sscanf(token, "%d", &x)` gives a read, or `None` when the
      read or the conversion fails. */
  function Value(r: TokResult): Option<int> {
    if r.TokOk? then ScanInt(CString(r.token)) else None
  }

  /** What `load_info_from_file` decides and after which of its reads it
      stops. */
  datatype Decision = Decision(status: Status, info: Info, stop: nat)

  /** The decision `load_info_from_file` takes on the results of its four
      reads: it stops at the first read that fails, a magic string other
      than "P5" or a number `%d` refuses, storing each number before the
      next read, and checks the bounds after the fourth read. This is
      `Header.ReadHeader` again, over reads computed in advance rather than
      read one at a time, so that two files can be compared read by read;
      `ReadHeaderDecides` proves the two agree. */
  function Decide(rs: seq<TokResult>, info0: Info): (d: Decision)
    requires |rs| == 4
    ensures d.stop < 4 && (d.status == Ok ==> d.stop == 3)
    ensures d.status == Ok ==>
      && Value(rs[1]) == Some(d.info.width) && Value(rs[2]) == Some(d.info.height)
      && Value(rs[3]) == Some(d.info.maxValue)
      && 1 <= d.info.width && 1 <= d.info.height && 1 <= d.info.maxValue <= 255
  {
    if rs[0].TokFail? || CString(rs[0].token) != Magic then Decision(Fail, info0, 0)
    else if Value(rs[1]).None? then Decision(Fail, info0, 1)
    else
      var info1 := info0.(width := Value(rs[1]).value);
      if Value(rs[2]).None? then Decision(Fail, info1, 2)
      else
        var info2 := info1.(height := Value(rs[2]).value);
        if Value(rs[3]).None? then Decision(Fail, info2, 3)
        else
          var info3 := info2.(maxValue := Value(rs[3]).value);
          if info3.width < 1 || info3.height < 1 || info3.maxValue < 1 || info3.maxValue > 255 then
            Decision(Fail, info3, 3)
          else
            AreaPositive(info3.width, info3.height);
            Decision(Ok, info3.(dataSize := info3.width * info3.height), 3)
  }

  /** `ReadHeader` is `Decide` applied to its four reads, and it stops
      where the read `Decide` names stopped. */
  lemma ReadHeaderDecides(s: seq<byte>, p: nat, info0: Info)
    requires p <= |s|
    ensures var rs := Reads(s, p, 4); var d := Decide(rs, info0);
      ReadHeader(s, p, info0) == Parse(d.status, d.info, rs[d.stop].next)
  {
    var m := NextToken(s, p);
    var w := ReadInt(s, m.next);
    var h := ReadInt(s, w.next);
    var v := ReadInt(s, h.next);
    var rs := Reads(s, p, 4);
    FourReads(s, p);
    assert w.value == Value(rs[1]) && h.value == Value(rs[2]) && v.value == Value(rs[3]);
  }

  /** The four reads of a header, one after the other. */
  lemma FourReads(s: seq<byte>, p: nat)
    requires p <= |s|
    ensures var rs := Reads(s, p, 4);
      && rs[0] == NextToken(s, p) && rs[1] == NextToken(s, rs[0].next)
      && rs[2] == NextToken(s, rs[1].next) && rs[3] == NextToken(s, rs[2].next)
  {
    var m := NextToken(s, p);
    var w := NextToken(s, m.next);
    var h := NextToken(s, w.next);
    assert Reads(s, p, 4) == [m] + Reads(s, m.next, 3);
    assert Reads(s, m.next, 3) == [w] + Reads(s, w.next, 2);
    assert Reads(s, w.next, 2) == [h] + Reads(s, h.next, 1);
  }

  /** Reads that give the same tokens lead to the same decision. */
  lemma DecideByTokens(rs: seq<TokResult>, qs: seq<TokResult>, info0: Info)
    requires |rs| == 4 && SameTokens(rs, qs)
    ensures Decide(rs, info0) == Decide(qs, info0)
  {
    assert forall j :: 0 <= j < 4 ==> Value(rs[j]) == Value(qs[j]);
  }

  /** Reads from a file whose bytes from `q + d` on are this file's bytes
      from `q` on: the same reads, `d` bytes further on. */
  lemma {:induction false} ReadsShifted(s: seq<byte>, t: seq<byte>, q: nat, d: nat, n: nat)
    requires q <= |s| && q + d <= |t| && s[q..] == t[q + d..]
    ensures forall j :: 0 <= j < n ==> Reads(t, q + d, n)[j] == Later(Reads(s, q, n)[j], d)
    decreases n
  {
    if n > 0 {
      ScanShifted(s, t, q, d, [], false);
      var q1 := NextToken(s, q).next;
      assert s[q1..] == s[q..][q1 - q..] == t[q + d..][q1 - q..] == t[q1 + d..];
      ReadsShifted(s, t, q1, d, n - 1);
    }
  }

  /** The first `k` reads, when they all succeed and stop by `e`, are the
      same in any file that agrees with this one up to `e`. */
  lemma {:induction false} ReadsBefore(s: seq<byte>, t: seq<byte>, p: nat, k: nat, n: nat, ts: seq<seq<byte>>, e: nat)
    requires p <= |s| && p <= |t| && k <= n
    requires Tokens(s, p, k) == Some((ts, e))
    requires e <= |t| && s[..e] == t[..e]
    ensures forall j :: 0 <= j < k ==> Reads(t, p, n)[j] == Reads(s, p, n)[j] && Reads(s, p, n)[j].next <= e
    decreases k
  {
    if k > 0 {
      var r := NextToken(s, p);
      var rest := Tokens(s, r.next, k - 1).value;
      assert r.next <= rest.1 == e;
      assert s[..r.next] == s[..e][..r.next] == t[..e][..r.next] == t[..r.next];
      ScanBefore(s, t, p, [], false);
      ReadsBefore(s, t, r.next, k - 1, n - 1, rest.0, e);
    }
  }

  /** `k` tokens that end by `e` are read the same way in any file that
      agrees with this one up to `e`. */
  lemma {:induction false} TokensBefore(s: seq<byte>, t: seq<byte>, p: nat, k: nat, ts: seq<seq<byte>>, e: nat)
    requires p <= |s| && p <= |t|
    requires Tokens(s, p, k) == Some((ts, e))
    requires e <= |t| && s[..e] == t[..e]
    ensures Tokens(t, p, k) == Some((ts, e))
    decreases k
  {
    if k > 0 {
      var r := NextToken(s, p);
      var rest := Tokens(s, r.next, k - 1).value;
      assert r.next <= rest.1 == e;
      assert s[..r.next] == s[..e][..r.next] == t[..e][..r.next] == t[..r.next];
      ScanBefore(s, t, p, [], false);
      TokensBefore(s, t, r.next, k - 1, rest.0, e);
    }
  }

  /** When the first `k` reads succeed and stop at `e`, the reads after
      them are the reads from `e`. */
  lemma {:induction false} ReadsAfterTokens(s: seq<byte>, p: nat, k: nat, n: nat, ts: seq<seq<byte>>, e: nat)
    requires p <= |s| && k <= n
    requires Tokens(s, p, k) == Some((ts, e))
    ensures Reads(s, p, n)[k..] == Reads(s, e, n - k)
    decreases k
  {
    if k > 0 {
      var r := NextToken(s, p);
      var rest := Tokens(s, r.next, k - 1).value;
      ReadsAfterTokens(s, r.next, k - 1, n - 1, rest.0, e);
      assert Reads(s, p, n)[k..] == Reads(s, r.next, n - 1)[k - 1..];
    }
  }

  /** Two runs of `n` reads that agree on the first `k` (all stopping by
      `e`) and after them give the same reads, the second `d` bytes further
      on: the same tokens, the same stops in the first part, stops `d`
      bytes later in the second. */
  lemma Spliced(rs: seq<TokResult>, rs': seq<TokResult>, tail: seq<TokResult>, tail': seq<TokResult>,
                n: nat, k: nat, e: nat, d: nat)
    requires |rs| == n && |rs'| == n && k <= n && |tail| == n - k
    requires forall j :: 0 <= j < k ==> rs'[j] == rs[j] && rs[j].next <= e
    requires rs[k..] == tail && rs'[k..] == tail'
    requires forall j :: 0 <= j < n - k ==> tail'[j] == Later(tail[j], d) && e <= tail[j].next
    ensures SameTokens(rs, rs')
    ensures forall j :: 0 <= j < k ==> rs'[j].next == rs[j].next <= e
    ensures forall j :: k <= j < n ==> rs'[j].next == rs[j].next + d && e <= rs[j].next
  {
    forall j | k <= j < n
      ensures rs'[j] == Later(rs[j], d) && e <= rs[j].next
    {
      assert rs[j] == tail[j - k] && rs'[j] == tail'[j - k];
    }
  }

  /** A comment line is skipped by the read that starts on its `#`. */
  lemma CommentLineSkipped(a: seq<byte>, c: seq<byte>, b: seq<byte>, x: seq<byte>)
    requires c == [Hash] + x + [Newline] && forall j :: 0 <= j < |x| ==> x[j] != Newline
    ensures NextToken(a + c + b, |a|) == NextToken(a + c + b, |a| + |c|)
  {
    var s' := a + c + b;
    forall j | |a| < j < |a| + |c| - 1
      ensures s'[j] != Newline
    {
      assert s'[j] == x[j - |a| - 1];
    }
    CommentSkip(s', |a|, 0, |a| + |c|);
  }

  /** Reads from two positions whose first reads agree agree throughout. */
  lemma SameStart(s: seq<byte>, p: nat, q: nat, n: nat)
    requires p <= |s| && q <= |s| && NextToken(s, p) == NextToken(s, q)
    ensures Reads(s, p, n) == Reads(s, q, n)
  {
  }

  /** The first `n` reads of a file `t` that is `s` with `d` bytes inserted
      at `e`, after the `k` tokens `s` holds before `e` (`k` below `n`),
      when a read that starts on the inserted bytes skips them (as it skips
      a comment line): the same tokens as in `s`; the reads before `e` stop
      at the same places, the others `d` bytes later. */
  lemma InsertedReads(s: seq<byte>, t: seq<byte>, e: nat, d: nat, n: nat, k: nat, ts: seq<seq<byte>>)
    requires e <= |s| && e + d <= |t| && s[..e] == t[..e] && s[e..] == t[e + d..]
    requires NextToken(t, e) == NextToken(t, e + d)
    requires k < n && Tokens(s, 0, k) == Some((ts, e))
    ensures var rs, rs' := Reads(s, 0, n), Reads(t, 0, n);
      && SameTokens(rs, rs')
      && (forall j :: 0 <= j < k ==> rs'[j].next == rs[j].next <= e)
      && (forall j :: k <= j < n ==> rs'[j].next == rs[j].next + d && e <= rs[j].next)
  {
    InsertedHead(s, t, e, n, k, ts);
    SameStart(t, e, e + d, n - k);
    ReadsShifted(s, t, e, d, n - k);
    Spliced(Reads(s, 0, n), Reads(t, 0, n), Reads(s, e, n - k), Reads(t, e, n - k), n, k, e, d);
  }

  /** The reads before `e` in both files, and where the rest start. */
  lemma InsertedHead(s: seq<byte>, t: seq<byte>, e: nat, n: nat, k: nat, ts: seq<seq<byte>>)
    requires e <= |s| && e <= |t| && s[..e] == t[..e]
    requires k <= n && Tokens(s, 0, k) == Some((ts, e))
    ensures var rs, rs' := Reads(s, 0, n), Reads(t, 0, n);
      && (forall j :: 0 <= j < k ==> rs'[j] == rs[j] && rs[j].next <= e)
      && rs[k..] == Reads(s, e, n - k) && rs'[k..] == Reads(t, e, n - k)
  {
    ReadsBefore(s, t, 0, k, n, ts, e);
    ReadsAfterTokens(s, 0, k, n, ts, e);
    TokensBefore(s, t, 0, k, ts, e);
    ReadsAfterTokens(t, 0, k, n, ts, e);
  }

  /** After the `k` tokens of `a` (`k` below 4), a comment line `c` inserted
      where the next read starts changes nothing `load_info_from_file`
      decides: the status and the record are those of the file without it.
      An accepted header ends `|c|` bytes later; a failure inside `a` stops
      where it did, and a failure after `a` stops `|c|` bytes later. */
  lemma CommentTransparent(a: seq<byte>, c: seq<byte>, b: seq<byte>, x: seq<byte>, k: nat, ts: seq<seq<byte>>, info0: Info)
    requires c == [Hash] + x + [Newline] && forall j :: 0 <= j < |x| ==> x[j] != Newline
    requires k < 4 && Tokens(a + b, 0, k) == Some((ts, |a|))
    ensures var r, r' := ReadHeader(a + b, 0, info0), ReadHeader(a + c + b, 0, info0);
      && r'.status == r.status && r'.info == r.info
      && (r.status == Ok ==> r'.next == r.next + |c|)
      && (r.next < |a| ==> r'.next == r.next)
      && (r.next > |a| ==> r'.next == r.next + |c|)
  {
    var s, t := a + b, a + c + b;
    assert s[..|a|] == a == t[..|a|];
    assert s[|a|..] == b == t[|a| + |c|..];
    CommentLineSkipped(a, c, b, x);
    InsertedReads(s, t, |a|, |c|, 4, k, ts);
    ReadHeaderDecides(s, 0, info0);
    ReadHeaderDecides(t, 0, info0);
    DecideByTokens(Reads(s, 0, 4), Reads(t, 0, 4), info0);
  }
}
