/** String operations of Python's str that the stages call: lower(),
    ' '.join(...), split(' ') (used only to state what join produces), and the
    ASCII filter that `.encode('ascii', 'ignore')` performs. */
module Text {
  import opened Sequences

  /** An upper-case letter of the Latin-1 range: A-Z, and U+00C0..U+00DE
      without the multiplication sign U+00D7. */
  predicate IsUpperLatin1(c: char) {
    ('A' <= c <= 'Z') || ('\U{C0}' <= c <= '\U{DE}' && c != '\U{D7}')
  }

  /** str.lower() on one character of the Latin-1 range: each upper-case
      letter maps to the letter 32 code points above it. */
  function LowerChar(c: char): (d: char)
    ensures !IsUpperLatin1(d)
    ensures IsUpperLatin1(c) ==> d as int == c as int + 32
    ensures !IsUpperLatin1(c) ==> d == c
  {
    if IsUpperLatin1(c) then (c as int + 32) as char else c
  }

  /** str.lower(). */
  function Lower(s: string): (r: string)
    ensures |r| == |s|
    ensures forall i :: 0 <= i < |r| ==> !IsUpperLatin1(r[i])
    ensures forall i :: 0 <= i < |s| && !IsUpperLatin1(s[i]) ==> r[i] == s[i]
    ensures forall i :: 0 <= i < |s| && IsUpperLatin1(s[i]) ==> r[i] as int == s[i] as int + 32
  {
    seq(|s|, i requires 0 <= i < |s| => LowerChar(s[i]))
  }

  /** ' '.join(words). */
  function JoinSpaced(words: seq<string>): string {
    if words == [] then ""
    else if |words| == 1 then words[0]
    else words[0] + " " + JoinSpaced(words[1..])
  }

  /** s.split(' '): the pieces between single spaces; never empty. */
  function SplitSpaced(s: string): (pieces: seq<string>)
    ensures |pieces| >= 1
  {
    if s == [] then [""]
    else if s[0] == ' ' then [""] + SplitSpaced(s[1..])
    else
      var rest := SplitSpaced(s[1..]);
      [[s[0]] + rest[0]] + rest[1..]
  }

  predicate NoSpace(w: string) {
    forall i :: 0 <= i < |w| ==> w[i] != ' '
  }

  lemma {:induction false} SplitWord(w: string, t: string)
    requires NoSpace(w)
    ensures SplitSpaced(w) == [w]
    ensures SplitSpaced(w + " " + t) == [w] + SplitSpaced(t)
  {
    if w == [] {
      assert w + " " + t == [' '] + t;
      assert ([' '] + t)[1..] == t;
    } else {
      SplitWord(w[1..], t);
      assert (w + " " + t)[1..] == w[1..] + " " + t;
      assert [w[0]] + w[1..] == w;
    }
  }

  /** Splitting a join on single spaces gives the words back, as long as no
      word holds a space. */
  lemma {:induction false} SplitJoin(words: seq<string>)
    requires |words| >= 1
    requires forall k :: 0 <= k < |words| ==> NoSpace(words[k])
    ensures SplitSpaced(JoinSpaced(words)) == words
  {
    SplitWord(words[0], "");
    if |words| > 1 {
      SplitJoin(words[1..]);
      SplitWord(words[0], JoinSpaced(words[1..]));
    }
  }

  /** A join is empty exactly when there is nothing to join or only one empty word. */
  lemma JoinEmpty(words: seq<string>)
    ensures JoinSpaced(words) == "" <==> words == [] || words == [""]
  {
  }

  predicate IsAsciiChar(c: char) {
    c as int < 128
  }

  predicate IsAscii(s: string) {
    forall i :: 0 <= i < |s| ==> IsAsciiChar(s[i])
  }

  /** `s.encode('ascii', 'ignore').decode('utf-8')`: every code point of 128
      or above is dropped, every other one is kept, in order. */
  function AsciiFold(s: string): (r: string)
    ensures IsAscii(r)
    ensures |r| <= |s|
  {
    Filter(s, IsAsciiChar)
  }

  /** Folding leaves a string unchanged exactly when it is already ASCII. */
  lemma AsciiFoldFixes(s: string)
    ensures AsciiFold(s) == s <==> IsAscii(s)
  {
    FilterIdentity(s, IsAsciiChar);
  }

  /** Each character is kept or dropped on its own: folding a concatenation
      folds the parts. */
  lemma AsciiFoldConcat(a: string, b: string)
    ensures AsciiFold(a + b) == AsciiFold(a) + AsciiFold(b)
  {
    FilterConcat(a, b, IsAsciiChar);
  }
}
