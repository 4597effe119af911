/** Tokenising and re-serialising protocol messages: the FormatConverter of the
    location server. A message is a sequence of whitespace-separated fields; a
    compact ISO 6709 position is further split at its embedded signs. */
module Codec {

  /** The characters Python's argument-less `str.split()` treats as separators. */
  predicate IsSpace(c: char) {
    || ('\U{9}' <= c <= '\U{D}')
    || ('\U{1C}' <= c <= '\U{20}')
    || c == '\U{85}' || c == '\U{A0}' || c == '\U{1680}'
    || ('\U{2000}' <= c <= '\U{200A}')
    || c == '\U{2028}' || c == '\U{2029}' || c == '\U{202F}' || c == '\U{205F}' || c == '\U{3000}'
  }

  predicate NoSpace(s: string) {
    forall i :: 0 <= i < |s| ==> !IsSpace(s[i])
  }

  /** A field of a tokenised message: non-empty and free of whitespace. */
  predicate IsToken(t: string) {
    |t| > 0 && NoSpace(t)
  }

  predicate AllTokens(ts: seq<string>) {
    forall i :: 0 <= i < |ts| ==> IsToken(ts[i])
  }

  /** Length of the longest whitespace-free prefix of `s`. */
  function WordLen(s: string): (n: nat)
    ensures n <= |s|
    ensures forall i :: 0 <= i < n ==> !IsSpace(s[i])
    ensures n < |s| ==> IsSpace(s[n])
  {
    if s == [] || IsSpace(s[0]) then 0 else 1 + WordLen(s[1..])
  }

  /** `message.strip().split()`: the maximal whitespace-free runs of `s`, in order. */
  function MessageToList(s: string): (r: seq<string>)
    ensures AllTokens(r)
    decreases |s|
  {
    if s == [] then []
    else if IsSpace(s[0]) then MessageToList(s[1..])
    else
      var n := WordLen(s);
      [s[..n]] + MessageToList(s[n..])
  }

  /** `sep.join(ts)`. */
  function Join(ts: seq<string>, sep: string): string {
    if |ts| == 0 then ""
    else if |ts| == 1 then ts[0]
    else ts[0] + sep + Join(ts[1..], sep)
  }

  /** `"".join(ts)`. */
  function Concat(ts: seq<string>): string {
    if ts == [] then "" else ts[0] + Concat(ts[1..])
  }

  /** `s` with every whitespace character dropped. */
  function NonSpace(s: string): string {
    if s == [] then ""
    else (if IsSpace(s[0]) then "" else [s[0]]) + NonSpace(s[1..])
  }

  lemma {:induction false} NonSpaceAppend(a: string, b: string)
    ensures NonSpace(a + b) == NonSpace(a) + NonSpace(b)
  {
    if a != [] {
      assert (a + b)[0] == a[0] && (a + b)[1..] == a[1..] + b;
      NonSpaceAppend(a[1..], b);
      var head := if IsSpace(a[0]) then "" else [a[0]];
      assert NonSpace(a + b) == head + (NonSpace(a[1..]) + NonSpace(b));
    } else {
      assert a + b == b;
    }
  }

  lemma {:induction false} NonSpaceOfToken(w: string)
    requires NoSpace(w)
    ensures NonSpace(w) == w
  {
    if w != [] {
      NonSpaceOfToken(w[1..]);
    }
  }

  /** Tokenising loses no character but whitespace: the fields, glued back
      together, are the message with its whitespace removed. */
  lemma {:induction false} MessageToListKeepsText(s: string)
    ensures Concat(MessageToList(s)) == NonSpace(s)
    decreases |s|
  {
    if s == [] {
    } else if IsSpace(s[0]) {
      MessageToListKeepsText(s[1..]);
    } else {
      var n := WordLen(s);
      assert s == s[..n] + s[n..];
      NonSpaceAppend(s[..n], s[n..]);
      NonSpaceOfToken(s[..n]);
      MessageToListKeepsText(s[n..]);
    }
  }

  lemma {:induction false} WordLenOfWord(w: string, rest: string)
    requires NoSpace(w)
    requires rest == [] || IsSpace(rest[0])
    ensures WordLen(w + rest) == |w|
    decreases |w|
  {
    if w != [] {
      assert (w + rest)[1..] == w[1..] + rest;
      WordLenOfWord(w[1..], rest);
    }
  }

  /** A word followed by the end of the text or by whitespace is the next field. */
  lemma SplitAfterWord(w: string, rest: string)
    requires IsToken(w)
    requires rest == [] || IsSpace(rest[0])
    ensures MessageToList(w + rest) == [w] + MessageToList(rest)
  {
    var s := w + rest;
    WordLenOfWord(w, rest);
    assert s[..|w|] == w && s[|w|..] == rest;
  }

  lemma SplitAfterSpace(c: char, rest: string)
    requires IsSpace(c)
    ensures MessageToList([c] + rest) == MessageToList(rest)
  {
    assert ([c] + rest)[1..] == rest;
  }

  /** The round trip behind every `" ".join(...)` the server sends and re-reads:
      splitting the single-space join of a list of fields gives the list back. */
  lemma {:induction false} SplitJoin(ts: seq<string>)
    requires AllTokens(ts)
    ensures MessageToList(Join(ts, " ")) == ts
  {
    if |ts| == 0 {
    } else if |ts| == 1 {
      SplitAfterWord(ts[0], "");
      assert ts[0] + "" == ts[0];
    } else {
      var tail := Join(ts[1..], " ");
      assert Join(ts, " ") == ts[0] + (" " + tail);
      SplitAfterWord(ts[0], " " + tail);
      SplitAfterSpace(' ', tail);
      SplitJoin(ts[1..]);
    }
  }

  // ---------------------------------------------------------------------
  // Splitting a compact ISO 6709 position at its signs (location2list)
  // ---------------------------------------------------------------------

  predicate IsSign(c: char) {
    c == '+' || c == '-'
  }

  /** `s.replace(c, with)` for a one-character pattern `c`. */
  function Replace(s: string, c: char, with: string): string {
    if s == [] then ""
    else (if s[0] == c then with else [s[0]]) + Replace(s[1..], c, with)
  }

  /** `location.replace("+", " + ").replace("-", " - ")`. */
  function PadSigns(s: string): string {
    Replace(Replace(s, '+', " + "), '-', " - ")
  }

  /** `location2list`: the position with a blank put around every sign, split again. */
  function LocationToList(s: string): seq<string> {
    MessageToList(PadSigns(s))
  }

  /** Length of the longest sign-free prefix of `v`. */
  function RunLen(v: string): (n: nat)
    ensures n <= |v|
    ensures forall i :: 0 <= i < n ==> !IsSign(v[i])
    ensures n < |v| ==> IsSign(v[n])
  {
    if v == [] || IsSign(v[0]) then 0 else 1 + RunLen(v[1..])
  }

  /** Reference split of a whitespace-free text: every sign is a field on its
      own and every maximal run between signs is one field. */
  function SignTokens(v: string): seq<string>
    decreases |v|
  {
    if v == [] then []
    else if IsSign(v[0]) then [[v[0]]] + SignTokens(v[1..])
    else
      var n := RunLen(v);
      [v[..n]] + SignTokens(v[n..])
  }

  predicate IsSignToken(t: string) {
    t == "+" || t == "-"
  }

  /** A field between two signs: non-empty, with neither a sign nor whitespace. */
  predicate IsRun(t: string) {
    |t| > 0 && forall i :: 0 <= i < |t| ==> !IsSign(t[i]) && !IsSpace(t[i])
  }

  lemma {:induction false} ReplaceAppend(a: string, b: string, c: char, with: string)
    ensures Replace(a + b, c, with) == Replace(a, c, with) + Replace(b, c, with)
  {
    if a != [] {
      assert (a + b)[0] == a[0] && (a + b)[1..] == a[1..] + b;
      ReplaceAppend(a[1..], b, c, with);
      var head := if a[0] == c then with else [a[0]];
      assert Replace(a + b, c, with) == head + (Replace(a[1..], c, with) + Replace(b, c, with));
    } else {
      assert a + b == b;
    }
  }

  lemma PadSignsCons(x: char, rest: string)
    ensures PadSigns([x] + rest) ==
      (if x == '+' then " + " else if x == '-' then " - " else [x]) + PadSigns(rest)
  {
    assert ([x] + rest)[1..] == rest;
    var first := if x == '+' then " + " else [x];
    assert Replace([x] + rest, '+', " + ") == first + Replace(rest, '+', " + ");
    ReplaceAppend(first, Replace(rest, '+', " + "), '-', " - ");
    if x == '+' {
      assert Replace(" + ", '-', " - ") == " + " by {
        assert " + "[1..] == "+ " && "+ "[1..] == " " && " "[1..] == "";
      }
    } else {
      assert Replace([x], '-', " - ") == (if x == '-' then " - " else [x]) by {
        assert [x][1..] == "";
      }
    }
  }

  lemma {:induction false} PadSignsAppend(a: string, b: string)
    ensures PadSigns(a + b) == PadSigns(a) + PadSigns(b)
  {
    if a != [] {
      assert a + b == [a[0]] + (a[1..] + b);
      assert a == [a[0]] + a[1..];
      PadSignsCons(a[0], a[1..] + b);
      PadSignsCons(a[0], a[1..]);
      PadSignsAppend(a[1..], b);
      var head := if a[0] == '+' then " + " else if a[0] == '-' then " - " else [a[0]];
      assert PadSigns(a + b) == head + (PadSigns(a[1..]) + PadSigns(b));
    } else {
      assert a + b == b;
    }
  }

  lemma {:induction false} PadSignsOfRun(w: string)
    requires forall i :: 0 <= i < |w| ==> !IsSign(w[i])
    ensures PadSigns(w) == w
  {
    if w != [] {
      assert w == [w[0]] + w[1..];
      PadSignsCons(w[0], w[1..]);
      PadSignsOfRun(w[1..]);
    }
  }

  /** On a whitespace-free text, `location2list` is the reference split at signs. */
  lemma {:induction false} LocationToListSplitsAtSigns(v: string)
    requires NoSpace(v)
    ensures LocationToList(v) == SignTokens(v)
    decreases |v|
  {
    if v == [] {
    } else if IsSign(v[0]) {
      SignFirst(v);
      LocationToListSplitsAtSigns(v[1..]);
    } else {
      RunFirst(v);
      LocationToListSplitsAtSigns(v[RunLen(v)..]);
    }
  }

  /** A leading sign becomes a field of its own. */
  lemma SignFirst(v: string)
    requires v != [] && IsSign(v[0])
    ensures LocationToList(v) == [[v[0]]] + LocationToList(v[1..])
  {
    var s := [v[0]];
    var p := PadSigns(v[1..]);
    assert v == [v[0]] + v[1..];
    PadSignsCons(v[0], v[1..]);
    assert PadSigns(v) == [' '] + (s + (" " + p));
    SplitAfterSpace(' ', s + (" " + p));
    SplitAfterWord(s, " " + p);
    SplitAfterSpace(' ', p);
  }

  /** A leading run of a whitespace-free text, up to the next sign, becomes
      one field. */
  lemma RunFirst(v: string)
    requires NoSpace(v) && v != [] && !IsSign(v[0])
    ensures LocationToList(v) == [v[..RunLen(v)]] + LocationToList(v[RunLen(v)..])
  {
    var n := RunLen(v);
    var w, rest := v[..n], v[n..];
    assert v == w + rest;
    PadSignsAppend(w, rest);
    PadSignsOfRun(w);
    if rest != [] {
      assert rest == [rest[0]] + rest[1..];
      PadSignsCons(rest[0], rest[1..]);
    }
    SplitAfterWord(w, PadSigns(rest));
  }

  /** Every field is a sign or a run, and a run is never followed by a run. */
  predicate Alternates(t: seq<string>) {
    && (forall i :: 0 <= i < |t| ==> IsSignToken(t[i]) || IsRun(t[i]))
    && (forall i :: 0 <= i < |t| - 1 && IsRun(t[i]) ==> IsSignToken(t[i + 1]))
  }

  lemma ConsAlternates(head: string, rest: seq<string>)
    requires Alternates(rest)
    requires IsSignToken(head) || IsRun(head)
    requires IsRun(head) && rest != [] ==> IsSignToken(rest[0])
    ensures Alternates([head] + rest)
    ensures Concat([head] + rest) == head + Concat(rest)
  {
    var t := [head] + rest;
    assert t[1..] == rest;
    forall i | 0 < i < |t|
      ensures t[i] == rest[i - 1]
    {
    }
  }

  /** The fields of the reference split: signs and runs, never two runs in a
      row, and together they spell the text again. */
  lemma {:induction false} SignTokensShape(v: string)
    requires NoSpace(v)
    ensures Alternates(SignTokens(v)) && Concat(SignTokens(v)) == v
    decreases |v|
  {
    if v == [] {
    } else if IsSign(v[0]) {
      SignTokensShape(v[1..]);
      assert v == [v[0]] + v[1..];
      ConsAlternates([v[0]], SignTokens(v[1..]));
    } else {
      var n := RunLen(v);
      SignTokensShape(v[n..]);
      assert v == v[..n] + v[n..];
      if n < |v| {
        assert SignTokens(v[n..])[0] == [v[n]] by {
          assert v[n..][0] == v[n];
        }
      }
      ConsAlternates(v[..n], SignTokens(v[n..]));
    }
  }
}
