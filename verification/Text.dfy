/** `str.split()` on the text of a buffer, `bytes.find`, and whitespace trimming:
    the built-ins `mav_gss_lib/platform/spec/cursor.py` and the command line are
    written with. Text is its bytes; a byte of 128 and over decodes to the
    replacement character, which is not whitespace. */
module Texts {
  import opened Options
  import opened Bitwise

  type Text = seq<byte>

  /** What `str.split()` splits at. */
  predicate Space(b: byte) {
    9 <= b <= 13 || 28 <= b <= 32
  }

  /** What the cursors trim: space, tab, line feed, carriage return. */
  predicate Trimmed(b: byte) {
    b == 32 || b == 9 || b == 10 || b == 13
  }

  predicate Blank(t: Text) {
    forall i :: 0 <= i < |t| ==> Space(t[i])
  }

  predicate Ascii(t: Text) {
    forall i :: 0 <= i < |t| ==> t[i] < 128
  }

  /** A token: not empty, no whitespace. */
  predicate IsWord(t: Text) {
    t != [] && forall i :: 0 <= i < |t| ==> !Space(t[i])
  }

  // ---- Splitting -------------------------------------------------------------

  predicate Wordy(t: Text) {
    forall i :: 0 <= i < |t| ==> !Space(t[i])
  }

  /** How much whitespace the text starts with. */
  function Start(t: Text): (n: nat)
    ensures n <= |t|
  {
    if t == [] || !Space(t[0]) then 0 else 1 + Start(t[1..])
  }

  /** How far the text runs without whitespace. */
  function WordLength(t: Text): (n: nat)
    ensures n <= |t|
  {
    if t == [] || Space(t[0]) then 0 else 1 + WordLength(t[1..])
  }

  /** Text from the first token on. */
  function Skip(t: Text): (u: Text)
    ensures |u| <= |t| && (u != [] ==> !Space(u[0]))
  {
    StartStops(t);
    t[Start(t)..]
  }

  /** Where the first token ends. */
  function End(t: Text): (n: nat)
    ensures n <= |t|
  {
    Start(t) + WordLength(Skip(t))
  }

  function FirstWord(t: Text): Text {
    Skip(t)[..WordLength(Skip(t))]
  }

  function Split(t: Text): (words: seq<Text>)
    decreases |t|
  {
    if Skip(t) == [] then [] else [FirstWord(t)] + Split(t[End(t)..])
  }

  /** What stands after the first `n` tokens. */
  function After(t: Text, n: nat): Text
    decreases n
  {
    if n == 0 || Skip(t) == [] then t else After(t[End(t)..], n - 1)
  }

  /** Its tokens are the ones after those. */
  lemma {:induction false} SplitAfter(t: Text, n: nat)
    requires n <= |Split(t)|
    ensures Split(After(t, n)) == Split(t)[n..]
    decreases n
  {
    if n > 0 {
      SplitAfter(t[End(t)..], n - 1);
    }
  }

  lemma {:induction false} StartStops(t: Text)
    ensures Start(t) < |t| ==> !Space(t[Start(t)])
  {
    if t != [] && Space(t[0]) {
      StartStops(t[1..]);
    }
  }

  lemma {:induction false} StartOf(gap: Text, rest: Text)
    requires Blank(gap) && (rest == [] || !Space(rest[0]))
    ensures Start(gap + rest) == |gap|
  {
    if gap == [] {
      assert gap + rest == rest;
    } else {
      StartOf(gap[1..], rest);
      assert (gap + rest)[1..] == gap[1..] + rest;
    }
  }

  lemma {:induction false} WordLengthOf(word: Text, rest: Text)
    requires Wordy(word) && (rest == [] || Space(rest[0]))
    ensures WordLength(word + rest) == |word|
  {
    if word == [] {
      assert word + rest == rest;
    } else {
      WordLengthOf(word[1..], rest);
      assert (word + rest)[1..] == word[1..] + rest;
    }
  }

  /** Blanks, a word, and then nothing or whitespace: the word is the first token. */
  lemma SplitFirst(gap: Text, word: Text, rest: Text)
    requires Blank(gap) && IsWord(word) && (rest == [] || Space(rest[0]))
    ensures var t := gap + (word + rest);
            && Start(t) == |gap| && End(t) == |gap| + |word|
            && FirstWord(t) == word && t[End(t)..] == rest
            && Split(t) == [word] + Split(rest)
  {
    var t := gap + (word + rest);
    StartOf(gap, word + rest);
    WordLengthOf(word, rest);
    assert Skip(t) == word + rest;
    assert t[End(t)..] == rest;
  }

  /** Whitespace in front changes nothing. */
  lemma SplitSkipsBlank(gap: Text, t: Text)
    requires Blank(gap)
    ensures Split(gap + t) == Split(t)
    ensures Skip(t) != [] ==> Start(gap + t) == |gap| + Start(t) && FirstWord(gap + t) == FirstWord(t)
                              && End(gap + t) == |gap| + End(t)
  {
    if Split(t) == [] {
      var all, _, _ := Shape(t);
      SplitBlank(gap + t);
    } else {
      var more, word, rest := Shape(t);
      assert gap + t == (gap + more) + (word + rest);
      SplitFirst(gap + more, word, rest);
      SplitFirst(more, word, rest);
    }
  }

  lemma SplitBlank(t: Text)
    requires Blank(t)
    ensures Split(t) == [] && Skip(t) == []
  {
    StartOf(t, []);
    assert t + [] == t;
  }

  /** Every text is blank or has the shape of `SplitFirst`. */
  lemma Shape(t: Text) returns (gap: Text, word: Text, rest: Text)
    ensures Blank(gap) && t == gap + (word + rest)
    ensures Split(t) == [] ==> Blank(t) && word == [] && rest == []
    ensures Split(t) != [] ==> IsWord(word) && (rest == [] || Space(rest[0]))
    ensures Split(t) != [] ==> gap == t[..Start(t)] && word == Split(t)[0] == FirstWord(t) && rest == t[End(t)..]
    ensures Split(t) != [] ==> Split(rest) == Split(t)[1..]
  {
    gap := t[..Start(t)];
    BlankStart(t);
    if Skip(t) == [] {
      word, rest := [], [];
      assert t == gap;
    } else {
      word, rest := FirstWord(t), t[End(t)..];
      WordStart(Skip(t));
      assert Skip(t)[WordLength(Skip(t))..] == rest;
    }
  }

  lemma {:induction false} BlankStart(t: Text)
    ensures Blank(t[..Start(t)])
  {
    if t != [] && Space(t[0]) {
      BlankStart(t[1..]);
      assert t[..Start(t)] == [t[0]] + t[1..][..Start(t[1..])];
    }
  }

  lemma {:induction false} WordStart(t: Text)
    ensures Wordy(t[..WordLength(t)]) && (WordLength(t) < |t| ==> Space(t[WordLength(t)]))
    ensures t != [] && !Space(t[0]) ==> IsWord(t[..WordLength(t)])
  {
    if t != [] && !Space(t[0]) {
      WordStart(t[1..]);
      assert t[..WordLength(t)] == [t[0]] + t[1..][..WordLength(t[1..])];
    }
  }

  // ---- Searching -------------------------------------------------------------

  predicate OccursAt(hay: Text, needle: Text, i: nat) {
    i + |needle| <= |hay| && hay[i..i + |needle|] == needle
  }

  /** `hay.find(needle, from)` */
  function Find(hay: Text, needle: Text, from: nat): (r: Option<nat>)
    ensures r.Some? ==> from <= r.value && r.value + |needle| <= |hay|
    decreases |hay| - from
  {
    if OccursAt(hay, needle, from) then Some(from)
    else if from + |needle| >= |hay| then None
    else Find(hay, needle, from + 1)
  }

  /** It is the first occurrence from there on. */
  lemma {:induction false} FindIsFirst(hay: Text, needle: Text, from: nat, at: nat)
    requires from <= at && at + |needle| <= |hay|
    ensures Find(hay, needle, from) == Some(at) <==>
            OccursAt(hay, needle, at) && forall i :: from <= i < at ==> !OccursAt(hay, needle, i)
    decreases at - from
  {
    if from < at {
      FindIsFirst(hay, needle, from + 1, at);
    }
  }

  /** `needle in hay` */
  predicate Contains(hay: Text, needle: Text) {
    Find(hay, needle, 0).Some?
  }

  /** `token.encode("ascii", errors="replace")` of a decoded token. */
  function Encoded(word: Text): (t: Text)
    ensures |t| == |word| && (t == word <==> Ascii(word))
  {
    var t := seq(|word|, i requires 0 <= i < |word| => if word[i] < 128 then word[i] else 63 as byte);
    assert !Ascii(word) ==> exists i :: 0 <= i < |word| && t[i] != word[i];
    t
  }

  /** Searching for a token from anywhere in the gap before it finds it, and where
      it stands, if and only if it is ASCII. */
  lemma FindWord(buf: Text, from: nat, gap: Text, word: Text, rest: Text, needle: Text, at: nat)
    requires from <= |buf| && buf[from..] == gap + (word + rest) && at == from + |gap|
    requires Blank(gap) && IsWord(word) && needle == Encoded(word)
    ensures Find(buf, needle, from) == Some(at) <==> Ascii(word)
  {
    WordAt(buf, from, gap, word, rest);
    if Ascii(word) {
      forall i | from <= i < at ensures !OccursAt(buf, needle, i) {
        BlanksBefore(buf, from, gap, word + rest, i);
        if OccursAt(buf, needle, i) {
          OccursHead(buf, needle, i);
        }
      }
    }
    FindIsFirst(buf, needle, from, at);
  }

  lemma OccursHead(hay: Text, needle: Text, i: nat)
    requires needle != [] && OccursAt(hay, needle, i)
    ensures hay[i] == needle[0]
  {
    assert hay[i..i + |needle|][0] == hay[i];
  }

  lemma BlanksBefore(buf: Text, from: nat, gap: Text, rest: Text, i: nat)
    requires from <= i < from + |gap| <= |buf| && buf[from..] == gap + rest && Blank(gap)
    ensures Space(buf[i])
  {
    assert buf[from..][i - from] == gap[i - from];
  }

  lemma WordAt(buf: Text, from: nat, gap: Text, word: Text, rest: Text)
    requires from <= |buf| && buf[from..] == gap + (word + rest)
    ensures OccursAt(buf, word, from + |gap|)
  {
    var at := from + |gap|;
    forall k | 0 <= k < |word| ensures buf[at + k] == word[k] {
      assert buf[from..][|gap| + k] == (word + rest)[k];
    }
    assert buf[at..at + |word|] == word;
  }
}
