/**
 * What `processarLote` does with one batch: upload the temporary PDF, ask the
 * model for a JSON array, strip Markdown fences from the reply, cut out the
 * text from the first `[` to the last `]` and parse it. The network and
 * `JSON.parse` are parameters of the model.
 */
module Extraction {
  import opened Options
  import opened JsText

  const Fence: string := "```"
  const JsonFence: string := "```json"

  /** Three backticks start at position `i` of `s`. */
  predicate FenceAt(s: string, i: int)
  {
    0 <= i && i + 2 < |s| && s[i] == '`' && s[i + 1] == '`' && s[i + 2] == '`'
  }

  /** No run of three backticks anywhere in `s`. */
  predicate NoFence(s: string)
  {
    forall i :: 0 <= i < |s| ==> !FenceAt(s, i)
  }

  /**
   * The reply cleanup: drop every "```json", then every "```", then trim. The
   * result is no longer than the reply and holds no run of three backticks.
   */
  function Cleanup(reply: string): (r: string)
    ensures |r| <= |reply|
    ensures NoFence(r)
  {
    var u := RemoveAll(RemoveAll(reply, JsonFence), Fence);
    RemoveFencesLeavesNone(RemoveAll(reply, JsonFence));
    TrimKeepsNoFence(u);
    Trim(u)
  }

  /** A string that does not start with a backtick keeps its first character through fence removal. */
  lemma FirstCharKept(t: string)
    requires |t| > 0 && t[0] != '`'
    ensures |RemoveAll(t, Fence)| > 0 && RemoveAll(t, Fence)[0] == t[0]
  {
    if |t| >= 3 {
      assert t[..3] != Fence by { assert t[..3][0] != Fence[0]; }
    }
  }

  /** Putting a character in front of a fence-free string makes no fence unless it completes one. */
  lemma NoFenceCons(c: char, rest: string)
    requires NoFence(rest)
    requires !(c == '`' && |rest| >= 2 && rest[0] == '`' && rest[1] == '`')
    ensures NoFence([c] + rest)
  {
    var r := [c] + rest;
    forall i | 0 <= i < |r| ensures !FenceAt(r, i) {
      if i >= 1 && FenceAt(r, i) {
        assert FenceAt(rest, i - 1);
      }
    }
  }

  /**
   * When `s` starts with a backtick but not with a fence, what fence removal
   * makes of `s[1..]` does not start with two backticks.
   */
  lemma NoFenceAfterTick(s: string)
    requires |s| >= 3 && s[..3] != Fence && s[0] == '`'
    ensures var rest := RemoveAll(s[1..], Fence);
      !(|rest| >= 2 && rest[0] == '`' && rest[1] == '`')
  {
    var t := s[1..];
    if s[1] != '`' {
      FirstCharKept(t);
    } else {
      assert s[2] != '`' by { assert s[..3] == [s[0], s[1], s[2]]; }
      if |t| >= 3 {
        assert t[..3] != Fence by { assert t[..3][1] == s[2]; }
      }
      assert RemoveAll(t, Fence) == [t[0]] + RemoveAll(t[1..], Fence);
      FirstCharKept(t[1..]);
    }
  }

  /** Removing every "```" from left to right leaves no "```" behind. */
  lemma {:induction false} RemoveFencesLeavesNone(s: string)
    ensures NoFence(RemoveAll(s, Fence))
    decreases |s|
  {
    if |s| < 3 {
      assert RemoveAll(s, Fence) == s;
    } else if s[..3] == Fence {
      RemoveFencesLeavesNone(s[3..]);
    } else {
      RemoveFencesLeavesNone(s[1..]);
      if s[0] == '`' {
        NoFenceAfterTick(s);
      }
      NoFenceCons(s[0], RemoveAll(s[1..], Fence));
    }
  }

  /** A fence-free string has no "```" and no "```json" to remove. */
  lemma NoFenceNothingToRemove(s: string)
    requires NoFence(s)
    ensures RemoveAll(s, JsonFence) == s && RemoveAll(s, Fence) == s
  {
    forall i ensures !Occurs(s, JsonFence, i) && !Occurs(s, Fence, i) {
      if Occurs(s, JsonFence, i) {
        assert s[i..i + 7][..3] == Fence;
        assert FenceAt(s, i);
      }
      if Occurs(s, Fence, i) {
        assert FenceAt(s, i);
      }
    }
    RemoveAllAbsent(s, JsonFence);
    RemoveAllAbsent(s, Fence);
  }

  /** A slice of a fence-free string is fence-free. */
  lemma SliceKeepsNoFence(u: string, a: nat, b: nat)
    requires a <= b <= |u| && NoFence(u)
    ensures NoFence(u[a..b])
  {
    var r := u[a..b];
    forall i | 0 <= i < |r| ensures !FenceAt(r, i) {
      if FenceAt(r, i) {
        assert FenceAt(u, a + i);
      }
    }
  }

  /** Trimming cuts out a slice, so it cannot create a fence. */
  lemma TrimKeepsNoFence(u: string)
    requires NoFence(u)
    ensures NoFence(Trim(u))
  {
    var t := TrimStart(u);
    SliceKeepsNoFence(u, |u| - |t|, |u|);
    assert t == u[|u| - |t|..|u|];
    SliceKeepsNoFence(t, 0, |TrimEnd(t)|);
  }

  /** A fence-free string without whitespace at either end is already clean. */
  lemma CleanupFixes(c: string)
    requires NoFence(c)
    requires c == [] || (!IsJsWhitespace(c[0]) && !IsJsWhitespace(c[|c| - 1]))
    ensures Cleanup(c) == c
  {
    NoFenceNothingToRemove(c);
    TrimFixed(c);
  }

  /** Cleaning a cleaned reply changes nothing. */
  lemma CleanupIdempotent(reply: string)
    ensures Cleanup(Cleanup(reply)) == Cleanup(reply)
  {
    CleanupFixes(Cleanup(reply));
  }

  /**
   * In a fence-free text followed by three backticks, no "```json" starts
   * inside the text: it would need three backticks inside the text or a `j`
   * where the backticks are.
   */
  lemma NoJsonFenceInside(t: string, rest: string)
    requires NoFence(t)
    requires |rest| >= 3 && rest[..3] == Fence
    ensures forall i :: 0 <= i < |t| ==> !Occurs(t + rest, JsonFence, i)
  {
    var u := t + rest;
    forall i | 0 <= i < |t| ensures !Occurs(u, JsonFence, i) {
      if i + |JsonFence| <= |u| {
        var w := u[i..i + |JsonFence|];
        if i + 3 <= |t| {
          assert !FenceAt(t, i);
          if t[i] != '`' {
            assert w[0] != JsonFence[0];
          } else if t[i + 1] != '`' {
            assert w[1] != JsonFence[1];
          } else {
            assert w[2] != JsonFence[2];
          }
        } else {
          assert w[3] == rest[..3][i + 3 - |t|] == '`';
        }
      }
    }
  }

  /**
   * A fence-free text, then "```", then text `c` holds no "```json" unless
   * "```" + `c` does.
   */
  lemma NoJsonFenceAround(t: string, c: string)
    requires NoFence(t)
    requires forall i :: !Occurs(Fence + c, JsonFence, i)
    ensures forall i :: !Occurs(t + Fence + c, JsonFence, i)
  {
    var u := t + (Fence + c);
    assert t + Fence + c == u;
    assert (Fence + c)[..3] == Fence;
    NoJsonFenceInside(t, Fence + c);
    forall i | |t| <= i ensures !Occurs(u, JsonFence, i) {
      if i + |JsonFence| <= |u| {
        assert u[i..i + |JsonFence|] == (Fence + c)[i - |t|..i - |t| + |JsonFence|];
        assert !Occurs(Fence + c, JsonFence, i - |t|);
      }
    }
  }

  /**
   * When the inserted "```" already matches at position 0, the text before it
   * is fewer than three backticks, and dropping the first three characters
   * gives the text without the inserted fence.
   */
  lemma FenceAtStart(t: string, c: string)
    requires NoFence(t + c)
    requires (t + Fence + c)[..3] == Fence
    ensures (t + Fence + c)[3..] == t + c
  {
    var u, v := t + Fence + c, t + c;
    if |t| >= 3 {
      assert u[..3] == v[..3];
      assert FenceAt(v, 0);
    }
    forall k | 0 <= k < |v| ensures u[3..][k] == v[k] {
      if k < |t| {
        assert t[k] == u[k] == '`';
      }
    }
  }

  /**
   * Removing every "```" from a text where one "```" was put into a place
   * that keeps the rest fence-free gives that text back.
   */
  lemma {:induction false} InnerFenceRemoved(t: string, c: string)
    requires NoFence(t + c)
    ensures RemoveAll(t + Fence + c, Fence) == t + c
    decreases |t|
  {
    var u := t + Fence + c;
    if u[..3] == Fence {
      FenceAtStart(t, c);
      NoFenceNothingToRemove(t + c);
    } else {
      InnerFenceStep(t, c);
      InnerFenceRemoved(t[1..], c);
      assert [t[0]] + (t[1..] + c) == t + c;
    }
  }

  /** One step of the scan over a text that does not start with a fence. */
  lemma InnerFenceStep(t: string, c: string)
    requires NoFence(t + c)
    requires (t + Fence + c)[..3] != Fence
    ensures |t| > 0 && NoFence(t[1..] + c)
    ensures RemoveAll(t + Fence + c, Fence) == [t[0]] + RemoveAll(t[1..] + Fence + c, Fence)
  {
    var u := t + Fence + c;
    assert (Fence + c)[..3] == Fence;
    SliceKeepsNoFence(t + c, 1, |t + c|);
    assert (t + c)[1..|t + c|] == t[1..] + c;
    assert u[1..] == t[1..] + Fence + c;
  }

  /**
   * A fence-free reply with a "```json" fence opened after text `a` and a
   * "```" fence closed before text `c` cleans to what the reply cleans to
   * without the two fences. The second requirement keeps "```" + `c` from
   * spelling a new "```json".
   */
  lemma FencedReplyCleansAsBare(a: string, t: string, c: string)
    requires NoFence(a + t + c)
    requires forall i :: !Occurs(Fence + c, JsonFence, i)
    ensures Cleanup(a + JsonFence + t + Fence + c) == Cleanup(a + t + c)
  {
    SliceKeepsNoFence(a + t + c, 0, |a|);
    assert (a + t + c)[0..|a|] == a;
    SliceKeepsNoFence(a + t + c, |a|, |a| + |t|);
    assert (a + t + c)[|a|..|a| + |t|] == t;
    var inner := t + Fence + c;
    assert a + JsonFence + t + Fence + c == a + JsonFence + inner;
    assert (JsonFence + inner)[..3] == Fence;
    NoJsonFenceInside(a, JsonFence + inner);
    assert a + (JsonFence + inner) == a + JsonFence + inner;
    RemoveAllSkip(a, JsonFence, inner);
    NoJsonFenceAround(t, c);
    RemoveAllAbsent(inner, JsonFence);
    assert a + inner == (a + t) + Fence + c;
    assert (a + t) + c == a + t + c;
    InnerFenceRemoved(a + t, c);
    NoFenceNothingToRemove(a + t + c);
  }

  /**
   * The slice of a cleaned reply handed to `JSON.parse`, or `None` when it
   * lacks `[` or lacks `]`. `substring(first, last + 1)` swaps its bounds when
   * the last `]` comes before the first `[`.
   */
  function BracketSlice(text: string): (r: Option<string>)
    ensures r.None? <==> '[' !in text || ']' !in text
  {
    var first := IndexOf(text, '[');
    var last := LastIndexOf(text, ']');
    if first != -1 && last != -1 then Some(Substring(text, first, last + 1)) else None
  }

  /** The text `processarLote` parses for a given model reply. */
  function ArrayText(reply: string): Option<string>
  {
    BracketSlice(Cleanup(reply))
  }

  /** Extraction from a reply gives what extraction from its cleaned form gives. */
  lemma ArrayTextIgnoresFences(reply: string)
    ensures ArrayText(Cleanup(reply)) == ArrayText(reply)
  {
    CleanupIdempotent(reply);
  }

  /**
   * A reply that wraps its JSON in "```json" and "```", with any text before
   * and after, yields the same text for the parser as the same reply without
   * the two fences.
   */
  lemma FencedReply(a: string, t: string, c: string)
    requires NoFence(a + t + c)
    requires forall i :: !Occurs(Fence + c, JsonFence, i)
    ensures ArrayText(a + JsonFence + t + Fence + c) == ArrayText(a + t + c)
  {
    FencedReplyCleansAsBare(a, t, c);
  }

  /**
   * When the first `[` is at or before the last `]`, the parser receives
   * exactly the text from that `[` through that `]`: it starts with `[` and
   * ends with `]`.
   */
  lemma BracketSliceOrdered(text: string, first: nat, last: nat)
    requires first < |text| && text[first] == '[' && '[' !in text[..first]
    requires last < |text| && text[last] == ']' && ']' !in text[last + 1..]
    requires first <= last
    ensures BracketSlice(text) == Some(text[first..last + 1])
    ensures BracketSlice(text).value[0] == '['
    ensures BracketSlice(text).value[|BracketSlice(text).value| - 1] == ']'
  {
    IndexOfIs(text, '[', first);
    LastIndexOfIs(text, ']', last);
  }

  /**
   * When the last `]` comes before the first `[`, the parser receives the text
   * strictly between them, which holds no bracket at all.
   */
  lemma BracketSliceSwapped(text: string, first: nat, last: nat)
    requires first < |text| && text[first] == '[' && '[' !in text[..first]
    requires last < |text| && text[last] == ']' && ']' !in text[last + 1..]
    requires last < first
    ensures BracketSlice(text) == Some(text[last + 1..first])
    ensures '[' !in BracketSlice(text).value && ']' !in BracketSlice(text).value
  {
    IndexOfIs(text, '[', first);
    LastIndexOfIs(text, ']', last);
    var between := text[last + 1..first];
    forall k | 0 <= k < |between| ensures between[k] != '[' && between[k] != ']' {
      assert between[k] == text[..first][last + 1 + k];
      assert between[k] == text[last + 1..][k];
    }
  }

  /** What the upload and the model call did for one batch. */
  datatype Exchange =
    | UploadFailed               // `fileManager.uploadFile` threw
    | InvokeFailed               // `llm.invoke` threw, or its reply content was not a string
    | Replied(content: string)   // the model's textual reply

  /** What `processarLote` yields: its list, or the upload's exception escaping it. */
  datatype BatchResult<R> = Escaped | Returned(records: seq<R>)

  /**
   * One call of `processarLote`. `parse` is `JSON.parse` on the sliced text,
   * with `None` for a `SyntaxError`. The upload happens before the `try`, so
   * only its failure escapes; every other failure gives the empty list.
   */
  function ProcessBatch<R>(ex: Exchange, parse: string -> Option<seq<R>>): (r: BatchResult<R>)
    ensures r.Escaped? <==> ex.UploadFailed?
    ensures ex.InvokeFailed? ==> r == Returned([])
    ensures ex.Replied? && ('[' !in Cleanup(ex.content) || ']' !in Cleanup(ex.content)) ==> r == Returned([])
    ensures r.Returned? && r.records != [] ==>
      ex.Replied? && ArrayText(ex.content).Some? && parse(ArrayText(ex.content).value) == Some(r.records)
    ensures ex.Replied? && ArrayText(ex.content).Some? && parse(ArrayText(ex.content).value).Some? ==>
      r == Returned(parse(ArrayText(ex.content).value).value)
    ensures ex.Replied? && ArrayText(ex.content).Some? && parse(ArrayText(ex.content).value).None? ==>
      r == Returned([])
  {
    match ex
    case UploadFailed => Escaped
    case InvokeFailed => Returned([])
    case Replied(content) =>
      match ArrayText(content)
      case None => Returned([])
      case Some(text) =>
        match parse(text)
        case None => Returned([])
        case Some(records) => Returned(records)
  }
}
