/** The header tokenizer of tinypgm, `load_next_ascii_token_from_file`:
    reads one white-space terminated token from a stream, skipping `#`
    comments that run through the end of the line. */
module Tokenizer {
  import opened LibC
  import opened Types

  /** TPGM_MAX_TOKEN_SIZE_: the size of the token buffer, terminator included. */
  const MaxTokenSize: nat := 50

  /** The outcome of reading one token and the stream position after it. */
  datatype TokResult = TokOk(token: seq<byte>, next: nat) | TokFail(next: nat)

  /** A byte that is collected into the token when read outside a comment. */
  predicate IsTokenByte(c: int) {
    !IsSpace(c) && c != Hash
  }

  /** The tokenizer from a given state: the byte position `i`, the bytes
      collected so far in the current attempt and whether a comment is open.
      One step per byte read, following the two nested do-while loops: a
      white-space byte outside a comment ends the token, the `\n` that closes
      a comment restarts collection from scratch, EOF fails, and so does the
      byte that would fill the buffer's last slot. */
  function Scan(s: seq<byte>, i: nat, acc: seq<byte>, inComment: bool): (r: TokResult)
    requires i <= |s|
    ensures i <= r.next <= |s|
    ensures r.TokOk? ==> i < r.next
    decreases |s| - i
  {
    if i == |s| then TokFail(i)
    else
      var c := s[i];
      var comment := inComment || c == Hash;
      if !comment && !IsSpace(c) then
        if |acc| + 1 >= MaxTokenSize then TokFail(i + 1)
        else Scan(s, i + 1, acc + [c], false)
      else if comment && c != Newline then Scan(s, i + 1, acc, true)
      else if comment then Scan(s, i + 1, [], false)
      else TokOk(acc, i + 1)
  }

  /** The token that starts at position `p`. */
  function NextToken(s: seq<byte>, p: nat): TokResult
    requires p <= |s|
  {
    Scan(s, p, [], false)
  }

  /** `load_next_ascii_token_from_file(fp, token)`: reads the next token into
      the 50-byte buffer `token`, NUL-terminated, and leaves the stream just
      after its delimiter. */
  method LoadNextAsciiToken(fp: Stream, token: array<byte>) returns (status: Status)
    requires fp.Valid() && token.Length == MaxTokenSize
    modifies fp, token
    ensures fp.Valid()
    ensures var r := NextToken(fp.bytes, old(fp.pos));
      && fp.pos == r.next
      && (status == Ok <==> r.TokOk?)
      && (r.TokOk? ==> |r.token| < token.Length && token[..|r.token|] == r.token && token[|r.token|] == Nul)
  {
    ghost var s := fp.bytes;
    ghost var goal := NextToken(s, fp.pos);
    var isComment: bool;
    var idx: nat;
    while true
      invariant fp.Valid()
      invariant Scan(s, fp.pos, [], false) == goal
      decreases |s| - fp.pos
    {
      isComment := false;
      idx := 0;
      ghost var start := fp.pos;
      var c: int;
      while true
        invariant fp.Valid() && start <= fp.pos
        invariant idx < MaxTokenSize
        invariant Scan(s, fp.pos, token[..idx], isComment) == goal
        decreases |s| - fp.pos
      {
        ghost var before := token[..idx];
        c := fp.GetC();
        if c == EOF {
          return Fail;
        } else if c == Hash {
          isComment := true;
        }
        if !isComment && !IsSpace(c) {
          // Append the byte to the token.
          token[idx] := c;
          idx := idx + 1;
          assert token[..idx] == before + [c];
          if idx >= MaxTokenSize {
            return Fail;
          }
        }
        if !((!isComment && !IsSpace(c)) || (isComment && c != Newline)) {
          break;
        }
      }
      // The NUL after the last token byte ends the C string.
      token[idx] := Nul;
      if !isComment {
        break;
      }
    }
    return Ok;
  }

  // ---------------------------------------------------------------------------
  // What the tokenizer does, for all inputs

  /** Up to 49 token bytes in a row are collected one after the other. */
  lemma {:induction false} Collect(s: seq<byte>, p: nat, k: nat)
    requires p + k <= |s| && k < MaxTokenSize
    requires forall j :: p <= j < p + k ==> IsTokenByte(s[j])
    ensures NextToken(s, p) == Scan(s, p + k, s[p..p + k], false)
  {
    if k > 0 {
      Collect(s, p, k - 1);
      assert s[p..p + k] == s[p..p + k - 1] + [s[p + k - 1]];
    }
  }

  /** A token that fits the buffer and is followed by white space is
      returned as it stands, and the stream is left just after the one
      delimiter byte. The token is empty when the first byte read is white
      space. */
  lemma TokenPlain(s: seq<byte>, p: nat, t: seq<byte>)
    requires p + |t| < |s| && s[p..p + |t|] == t
    requires |t| < MaxTokenSize
    requires forall j :: 0 <= j < |t| ==> IsTokenByte(t[j])
    requires IsSpace(s[p + |t|])
    ensures NextToken(s, p) == TokOk(t, p + |t| + 1)
  {
    forall j | p <= j < p + |t| ensures IsTokenByte(s[j]) {
      assert s[j] == t[j - p];
    }
    Collect(s, p, |t|);
  }

  /** The 50th token byte in a row makes the read fail, just after it. */
  lemma TokenTooLong(s: seq<byte>, p: nat)
    requires p + MaxTokenSize <= |s|
    requires forall j :: p <= j < p + MaxTokenSize ==> IsTokenByte(s[j])
    ensures NextToken(s, p) == TokFail(p + MaxTokenSize)
  {
    Collect(s, p, MaxTokenSize - 1);
  }

  /** Inside a comment everything is skipped through the first `\n`, and
      collection then restarts with nothing collected. */
  lemma {:induction false} CommentThrough(s: seq<byte>, i: nat, acc: seq<byte>, q: nat)
    requires i < q <= |s| && s[q - 1] == Newline
    requires forall j :: i <= j < q - 1 ==> s[j] != Newline
    ensures Scan(s, i, acc, true) == Scan(s, q, [], false)
    decreases q - i
  {
    if i < q - 1 {
      CommentThrough(s, i + 1, acc, q);
    }
  }

  /** A `#` starts a comment that runs through the next `\n`: the bytes
      collected before it in the same attempt (`k` of them, possibly none)
      are thrown away and the read goes on as if it had started after the
      comment. */
  lemma CommentSkip(s: seq<byte>, p: nat, k: nat, q: nat)
    requires p + k < q <= |s| && k < MaxTokenSize
    requires forall j :: p <= j < p + k ==> IsTokenByte(s[j])
    requires s[p + k] == Hash && s[q - 1] == Newline
    requires forall j :: p + k < j < q - 1 ==> s[j] != Newline
    ensures NextToken(s, p) == NextToken(s, q)
  {
    Collect(s, p, k);
    CommentThrough(s, p + k + 1, s[p..p + k], q);
  }

  /** Reaching end of file before any white space byte always fails: a
      token is only complete with its delimiter, and a comment only with
      its `\n`. */
  lemma {:induction false} NoDelimiterFails(s: seq<byte>, i: nat, acc: seq<byte>, inComment: bool)
    requires i <= |s|
    requires forall j :: i <= j < |s| ==> !IsSpace(s[j])
    ensures Scan(s, i, acc, inComment).TokFail?
    decreases |s| - i
  {
    if i < |s| {
      var c := s[i];
      if !(inComment || c == Hash) {
        if |acc| + 1 < MaxTokenSize {
          NoDelimiterFails(s, i + 1, acc + [c], false);
        }
      } else {
        NoDelimiterFails(s, i + 1, acc, true);
      }
    }
  }

  /** Inside a comment, reaching end of file before a `\n` fails, whatever
      else the comment holds: spaces, tabs and carriage returns do not
      close it. */
  lemma {:induction false} UnclosedComment(s: seq<byte>, i: nat, acc: seq<byte>)
    requires i <= |s|
    requires forall j :: i <= j < |s| ==> s[j] != Newline
    ensures Scan(s, i, acc, true).TokFail?
    decreases |s| - i
  {
    if i < |s| {
      UnclosedComment(s, i + 1, acc);
    }
  }

  /** A read that meets a `#` after fewer than 50 token bytes, with no `\n`
      after it up to end of file, fails: a file cut off inside a comment
      has no next token. */
  lemma UnclosedCommentFails(s: seq<byte>, p: nat, k: nat)
    requires p + k < |s| && k < MaxTokenSize
    requires forall j :: p <= j < p + k ==> IsTokenByte(s[j])
    requires s[p + k] == Hash
    requires forall j :: p + k < j < |s| ==> s[j] != Newline
    ensures NextToken(s, p).TokFail?
  {
    Collect(s, p, k);
    UnclosedComment(s, p + k + 1, s[p..p + k]);
  }

  /** The state of a read that started at `p`: outside a comment, `acc`
      holds the token bytes just read, and collection began at `p` or just
      after the `\n` that closed a comment. */
  ghost predicate Collecting(s: seq<byte>, p: nat, i: nat, acc: seq<byte>)
    requires i <= |s|
  {
    && p + |acc| <= i
    && acc == s[i - |acc|..i]
    && |acc| < MaxTokenSize
    && (forall j :: 0 <= j < |acc| ==> IsTokenByte(acc[j]))
    && (i - |acc| == p || s[i - |acc| - 1] == Newline)
  }

  /** What a successful read returns: exactly the token bytes (at most 49,
      none of them white space or `#`) that stand just before the one
      white-space delimiter it consumed; they start where the read started
      or right after a `\n`. This does not say which `\n`: that the token
      is the first one past any comments, `TokenPlain` and `CommentSkip`
      state. */
  predicate TokenAt(s: seq<byte>, p: nat, t: seq<byte>, next: nat) {
    && p + |t| < next <= |s|
    && IsSpace(s[next - 1])
    && s[next - 1 - |t|..next - 1] == t
    && |t| < MaxTokenSize
    && (forall j :: 0 <= j < |t| ==> IsTokenByte(t[j]))
    && (next - 1 - |t| == p || s[next - 2 - |t|] == Newline)
  }

  lemma {:induction false} ScanShape(s: seq<byte>, p: nat, i: nat, acc: seq<byte>, inComment: bool)
    requires p <= i <= |s|
    requires inComment || Collecting(s, p, i, acc)
    ensures var r := Scan(s, i, acc, inComment); r.TokOk? ==> TokenAt(s, p, r.token, r.next)
    decreases |s| - i
  {
    if i < |s| {
      var c := s[i];
      var comment := inComment || c == Hash;
      if !comment && !IsSpace(c) {
        if |acc| + 1 < MaxTokenSize {
          assert s[i + 1 - |acc + [c]|..i + 1] == acc + [c];
          ScanShape(s, p, i + 1, acc + [c], false);
        }
      } else if comment && c != Newline {
        ScanShape(s, p, i + 1, acc, true);
      } else if comment {
        ScanShape(s, p, i + 1, [], false);
      }
    }
  }

  lemma TokenShape(s: seq<byte>, p: nat)
    requires p <= |s|
    ensures var r := NextToken(s, p); r.TokOk? ==> TokenAt(s, p, r.token, r.next)
  {
    ScanShape(s, p, p, [], false);
  }

  // ---------------------------------------------------------------------------
  // A read only looks at the bytes it consumes

  /** A read depends only on the bytes from where it starts: a file whose
      bytes from `i + d` on are this file's bytes from `i` on gives the same
      result, `d` bytes further on. */
  lemma {:induction false} ScanShifted(s: seq<byte>, t: seq<byte>, i: nat, d: nat, acc: seq<byte>, inComment: bool)
    requires i <= |s| && i + d <= |t| && s[i..] == t[i + d..]
    ensures var r := Scan(s, i, acc, inComment);
      Scan(t, i + d, acc, inComment) == r.(next := r.next + d)
    decreases |s| - i
  {
    if i < |s| {
      assert s[i] == s[i..][0] == t[i + d..][0] == t[i + d];
      assert s[i + 1..] == s[i..][1..] == t[i + d..][1..] == t[i + 1 + d..];
      var c := s[i];
      var comment := inComment || c == Hash;
      if !comment && !IsSpace(c) {
        if |acc| + 1 < MaxTokenSize {
          ScanShifted(s, t, i + 1, d, acc + [c], false);
        }
      } else if comment && c != Newline {
        ScanShifted(s, t, i + 1, d, acc, true);
      } else if comment {
        ScanShifted(s, t, i + 1, d, [], false);
      }
    } else {
      assert |t[i + d..]| == 0;
    }
  }

  /** A successful read does not look past the delimiter it consumed: a file
      that agrees up to there reads the same token. */
  lemma {:induction false} ScanBefore(s: seq<byte>, t: seq<byte>, i: nat, acc: seq<byte>, inComment: bool)
    requires i <= |s| && i <= |t|
    requires var r := Scan(s, i, acc, inComment);
      r.TokOk? && r.next <= |t| && s[..r.next] == t[..r.next]
    ensures Scan(t, i, acc, inComment) == Scan(s, i, acc, inComment)
    decreases |s| - i
  {
    var n := Scan(s, i, acc, inComment).next;
    assert s[i] == s[..n][i] == t[..n][i] == t[i];
    var c := s[i];
    var comment := inComment || c == Hash;
    if !comment && !IsSpace(c) {
      if |acc| + 1 < MaxTokenSize {
        ScanBefore(s, t, i + 1, acc + [c], false);
      }
    } else if comment && c != Newline {
      ScanBefore(s, t, i + 1, acc, true);
    } else if comment {
      ScanBefore(s, t, i + 1, [], false);
    }
  }
}
