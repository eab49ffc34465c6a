/** The `@bucket` mention logic of the task input: which mention is being
    typed, which buckets it suggests, and how picking one rewrites the
    input. */
module Mentions {
  import opened Seqs
  import opened Model

  /** `lastIndexOf`: the position of the last `c` in `s`, or -1. */
  function LastIndexOf(s: string, c: char): (r: int)
    ensures -1 <= r < |s|
    ensures r == -1 <==> c !in s
    ensures r >= 0 ==> s[r] == c && c !in s[r + 1..]
  {
    var r := LastIndexBelow(s, c, |s|);
    if r >= 0 then
      var tail := s[r + 1..];
      assert forall k :: 0 <= k < |tail| ==> tail[k] == s[r + 1 + k];
      r
    else r
  }

  /** The search from the end, over the first `n` characters. */
  function LastIndexBelow(s: string, c: char, n: nat): (r: int)
    requires n <= |s|
    ensures -1 <= r < n
    ensures r == -1 <==> forall i :: 0 <= i < n ==> s[i] != c
    ensures r >= 0 ==> s[r] == c && forall i :: r < i < n ==> s[i] != c
  {
    if n == 0 then -1
    else if s[n - 1] == c then n - 1
    else LastIndexBelow(s, c, n - 1)
  }

  /** The characters the JavaScript `\s` class matches. */
  predicate IsSpace(ch: char)
  {
    var n := ch as int;
    || n == 0x09 || n == 0x0A || n == 0x0B || n == 0x0C || n == 0x0D || n == 0x20
    || n == 0xA0 || n == 0x1680 || (0x2000 <= n <= 0x200A)
    || n == 0x2028 || n == 0x2029 || n == 0x202F || n == 0x205F || n == 0x3000 || n == 0xFEFF
  }

  /** `/\s/.test(s)`. */
  predicate HasSpace(s: string)
  {
    exists i :: 0 <= i < |s| && IsSpace(s[i])
  }

  /** An ASCII capital becomes its small letter; everything else stays. */
  function LowerChar(ch: char): (r: char)
    ensures 'A' <= ch <= 'Z' ==> 'a' <= r <= 'z' && r as int == ch as int - 'A' as int + 'a' as int
    ensures !('A' <= ch <= 'Z') ==> r == ch
  {
    if 'A' <= ch <= 'Z' then (ch as int - 'A' as int + 'a' as int) as char else ch
  }

  /** `toLowerCase` on the ASCII letters. */
  function Lower(s: string): (r: string)
    ensures |r| == |s|
    ensures forall i :: 0 <= i < |s| ==> r[i] == LowerChar(s[i])
  {
    seq(|s|, i requires 0 <= i < |s| => LowerChar(s[i]))
  }

  /** Lowering neither creates nor removes an `@` or a space. */
  lemma LowerKeepsMarks(s: string)
    ensures '@' in Lower(s) <==> '@' in s
    ensures HasSpace(Lower(s)) <==> HasSpace(s)
  {
    var r := Lower(s);
    assert forall i :: 0 <= i < |s| ==> (r[i] == '@' <==> s[i] == '@');
    assert forall i :: 0 <= i < |s| ==> (IsSpace(r[i]) <==> IsSpace(s[i]));
    if '@' in r {
      var i :| 0 <= i < |r| && r[i] == '@';
      assert s[i] == '@';
    }
    if '@' in s {
      var i :| 0 <= i < |s| && s[i] == '@';
      assert r[i] == '@';
    }
  }

  /** The mention being typed: the lower-cased text after the last `@`, or
      "" when there is no `@` or that text holds whitespace. */
  function Mention(value: string): (m: string)
    ensures '@' !in value ==> m == ""
    ensures '@' !in m && !HasSpace(m)
  {
    var at := LastIndexOf(value, '@');
    if at == -1 then ""
    else
      var after := value[at + 1..];
      if HasSpace(after) then ""
      else
        LowerKeepsMarks(after);
        Lower(after)
  }

  /** The mention of `pre + "@" + after`, where `after` holds no `@`, depends
      on `after` alone. */
  lemma MentionAfterLastAt(pre: string, after: string)
    requires '@' !in after
    ensures Mention(pre + ['@'] + after) == if HasSpace(after) then "" else Lower(after)
  {
    var value := pre + ['@'] + after;
    var at := LastIndexOf(value, '@');
    assert value[|pre|] == '@';
    assert forall k :: |pre| < k < |value| ==> value[k] == after[k - |pre| - 1];
    assert at == |pre|;
    assert value[at + 1..] == after;
  }

  /** Every value with an `@` splits at its last `@`. */
  lemma SplitAtLastAt(value: string) returns (pre: string, after: string)
    requires '@' in value
    ensures value == pre + ['@'] + after && '@' !in after
  {
    var at := LastIndexOf(value, '@');
    pre, after := value[..at], value[at + 1..];
    assert value == value[..at] + [value[at]] + value[at + 1..];
  }

  /** `s` occurs in `hay` (`String.prototype.includes`): the empty string
      occurs everywhere, a prefix or a suffix occurs, and nothing longer
      than `hay` does. */
  function Contains(hay: string, s: string): (b: bool)
    ensures b ==> |s| <= |hay|
    ensures s == [] ==> b
    ensures |s| <= |hay| && (hay[..|s|] == s || hay[|hay| - |s|..] == s) ==> b
  {
    assert OccursAt(hay, [], 0);
    assert |s| <= |hay| && hay[..|s|] == s ==> OccursAt(hay, s, 0);
    assert |s| <= |hay| && hay[|hay| - |s|..] == s ==> OccursAt(hay, s, |hay| - |s|);

    exists i | 0 <= i <= |hay| - |s| :: OccursAt(hay, s, i)
  }

  predicate OccursAt(hay: string, s: string, i: int)
  {
    0 <= i <= |hay| - |s| && hay[i..i + |s|] == s
  }

  function NameMatches(mention: string): Bucket -> bool
  {
    (b: Bucket) => Contains(Lower(b.name), mention)
  }

  /** The suggestion list: nothing for an empty mention, otherwise the
      buckets whose lower-cased name contains the mention, in order. */
  function Suggestions(buckets: seq<Bucket>, mention: string): (r: seq<Bucket>)
    ensures mention == "" ==> r == []
    ensures forall b :: b in r <==> mention != "" && b in buckets && Contains(Lower(b.name), mention)
    ensures mention != "" ==>
      forall b :: multiset(r)[b] == (if Contains(Lower(b.name), mention) then multiset(buckets)[b] else 0)
  {
    if mention == "" then []
    else
      var r := Filter(buckets, NameMatches(mention));
      FilterCount(buckets, NameMatches(mention));
      assert forall b :: NameMatches(mention)(b) == Contains(Lower(b.name), mention);
      r
  }

  /** The suggestions keep the buckets' order: those of a concatenation are
      those of each part, concatenated. */
  lemma SuggestionsKeepOrder(a: seq<Bucket>, b: seq<Bucket>, mention: string)
    ensures Suggestions(a + b, mention) == Suggestions(a, mention) + Suggestions(b, mention)
  {
    if mention != "" {
      FilterAppend(a, b, NameMatches(mention));
    }
  }

  /** `applySuggestion(name)`: the value up to and including its last `@`,
      then the name and one space; unchanged when there is no `@`. */
  function ApplySuggestion(value: string, name: string): (r: string)
    ensures '@' !in value ==> r == value
    ensures '@' in value ==> |r| > 0 && r[|r| - 1] == ' '
  {
    var at := LastIndexOf(value, '@');
    if at == -1 then value else value[..at + 1] + name + " "
  }

  /** Applying a suggestion to `pre + "@" + after` replaces `after`. */
  lemma ApplySuggestionReplacesMention(pre: string, after: string, name: string)
    requires '@' !in after
    ensures ApplySuggestion(pre + ['@'] + after, name) == pre + ['@'] + name + [' ']
  {
    var value := pre + ['@'] + after;
    var at := LastIndexOf(value, '@');
    assert value[|pre|] == '@';
    assert forall k :: |pre| < k < |value| ==> value[k] == after[k - |pre| - 1];
    assert at == |pre|;
    assert value[..at + 1] == pre + ['@'];
  }

  /** After a suggestion is applied the input ends in a space, so no mention
      is being typed any more and the suggestion list closes. */
  lemma ApplySuggestionEndsMention(value: string, name: string, buckets: seq<Bucket>)
    requires '@' in value
    ensures Mention(ApplySuggestion(value, name)) == ""
    ensures Suggestions(buckets, Mention(ApplySuggestion(value, name))) == []
  {
    var r := ApplySuggestion(value, name);
    var pre, after := SplitAtLastAt(r);
    assert r[|r| - 1] == ' ';
    assert |after| > 0;
    assert after[|after| - 1] == r[|r| - 1];
    assert IsSpace(after[|after| - 1]);
    MentionAfterLastAt(pre, after);
  }
}
