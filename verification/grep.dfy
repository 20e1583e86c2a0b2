/** grep's pattern matcher and its buffered line reader (user/grep.c). */
module Grep {
  /** One character of a pattern, '.' for any, perhaps starred. */
  datatype Item = Item(c: char, star: bool)

  predicate Accepts(c: char, x: char) { c == '.' || c == x }

  /** What a pattern says: the items, after a "^" at its start and before a "$" at its
      end. */
  function Items(re: string): seq<Item> {
    if re == "" || re == "$" then []
    else if |re| > 1 && re[1] == '*' then [Item(re[0], true)] + Items(re[2..])
    else [Item(re[0], false)] + Items(re[1..])
  }

  predicate Anchored(re: string) {
    if re == "" then false
    else if |re| > 1 && re[1] == '*' then Anchored(re[2..])
    else re == "$" || Anchored(re[1..])
  }

  /** The strings that are made up of a string for each item. */
  ghost predicate Denotes(items: seq<Item>, t: string) {
    if items == [] then t == ""
    else if items[0].star then exists k :: 0 <= k <= |t| && Repeats(items[0].c, t, k) && Denotes(items[1..], t[k..])
    else t != "" && Accepts(items[0].c, t[0]) && Denotes(items[1..], t[1..])
  }

  predicate Repeats(c: char, t: string, k: nat) {
    k <= |t| && forall j | 0 <= j < k :: Accepts(c, t[j])
  }

  /** The pattern, without "^", describes the text up to position j. */
  ghost predicate DenotesTo(re: string, text: string, j: nat) {
    j <= |text| && Denotes(Items(re), text[..j]) && (Anchored(re) ==> j == |text|)
  }

  /** matchhere. */
  function Matchhere(re: string, text: string): bool
    decreases |re|, 0
  {
    if re == "" then true
    else if |re| > 1 && re[1] == '*' then Matchstar(re[0], re[2..], text)
    else if re == "$" then text == ""
    else text != "" && Accepts(re[0], text[0]) && Matchhere(re[1..], text[1..])
  }

  /** matchstar. */
  function Matchstar(c: char, re: string, text: string): bool
    decreases |re|, 1, |text|
  {
    Matchhere(re, text) || (text != "" && Accepts(c, text[0]) && Matchstar(c, re, text[1..]))
  }

  /** The loop of match. */
  function MatchFrom(re: string, text: string): bool
    decreases |text|
  {
    Matchhere(re, text) || (text != "" && MatchFrom(re, text[1..]))
  }

  function Match(re: string, text: string): bool {
    if re != "" && re[0] == '^' then Matchhere(re[1..], text) else MatchFrom(re, text)
  }

  /** Some start of the text is what the pattern describes. */
  ghost predicate Begins(re: string, text: string) {
    exists j :: 0 <= j <= |text| && DenotesTo(re, text, j)
  }

  lemma {:induction false} MatchhereIff(re: string, text: string)
    ensures Matchhere(re, text) <==> Begins(re, text)
    decreases |re|, 0
  {
    if re == "" {
      assert DenotesTo(re, text, 0);
    } else if |re| > 1 && re[1] == '*' {
      MatchstarIff(re[0], re[2..], text);
      StarIff(re, text);
    } else if re == "$" {
      assert DenotesTo(re, text, |text|) <==> text == "";
    } else {
      if text != "" {
        MatchhereIff(re[1..], text[1..]);
      }
      OneIff(re, text);
    }
  }

  lemma OneIff(re: string, text: string)
    requires re != "" && re != "$" && !(|re| > 1 && re[1] == '*')
    ensures Begins(re, text) <==> text != "" && Accepts(re[0], text[0]) && Begins(re[1..], text[1..])
  {
    var item := Item(re[0], false);
    assert Items(re) == [item] + Items(re[1..]) && Items(re)[1..] == Items(re[1..]);
    forall j | 1 <= j <= |text|
      ensures DenotesTo(re, text, j) <==> Accepts(re[0], text[0]) && DenotesTo(re[1..], text[1..], j - 1)
    {
      assert text[..j][1..] == text[1..][..j - 1];
    }
    if text != "" && Accepts(re[0], text[0]) && Begins(re[1..], text[1..]) {
      var j :| 0 <= j <= |text[1..]| && DenotesTo(re[1..], text[1..], j);
      assert DenotesTo(re, text, j + 1);
    }
    assert !DenotesTo(re, text, 0);
  }

  /** Some repetition of c is followed by what the pattern describes. */
  ghost predicate StarBegins(c: char, re: string, text: string) {
    exists k :: 0 <= k <= |text| && Repeats(c, text, k) && Begins(re, text[k..])
  }

  lemma StarIff(re: string, text: string)
    requires |re| > 1 && re[1] == '*'
    ensures Begins(re, text) <==> StarBegins(re[0], re[2..], text)
  {
    var c, rest := re[0], re[2..];
    assert Items(re) == [Item(c, true)] + Items(rest) && Items(re)[1..] == Items(rest);
    if Begins(re, text) {
      var j :| 0 <= j <= |text| && DenotesTo(re, text, j);
      var k :| 0 <= k <= |text[..j]| && Repeats(c, text[..j], k) && Denotes(Items(rest), text[..j][k..]);
      StarSplit(re, text, j, k);
      assert DenotesTo(rest, text[k..], j - k) && Repeats(c, text, k);
    }
    if StarBegins(c, rest, text) {
      var k :| 0 <= k <= |text| && Repeats(c, text, k) && Begins(rest, text[k..]);
      var l :| 0 <= l <= |text[k..]| && DenotesTo(rest, text[k..], l);
      StarSplit(re, text, k + l, k);
      assert Denotes(Items(re), text[..k + l]) by {
        assert Repeats(c, text[..k + l], k) && Denotes(Items(rest), text[..k + l][k..]);
      }
      assert DenotesTo(re, text, k + l);
    }
  }

  lemma StarSplit(re: string, text: string, j: nat, k: nat)
    requires |re| > 1 && re[1] == '*' && k <= j <= |text|
    ensures text[..j][k..] == text[k..][..j - k] && (Repeats(re[0], text[..j], k) <==> Repeats(re[0], text, k))
    ensures Anchored(re) == Anchored(re[2..])
  {
    hide Anchored;
    RepeatsIn(re[0], text, j, k);
    StarAnchored(re);
  }

  lemma RepeatsIn(c: char, text: string, j: nat, k: nat)
    requires k <= j <= |text|
    ensures Repeats(c, text[..j], k) <==> Repeats(c, text, k)
  {
    assert forall l | 0 <= l < k :: text[..j][l] == text[l];
  }

  lemma StarAnchored(re: string)
    requires |re| > 1 && re[1] == '*'
    ensures Anchored(re) == Anchored(re[2..])
  {
  }

  lemma {:induction false} MatchstarIff(c: char, re: string, text: string)
    ensures Matchstar(c, re, text) <==> StarBegins(c, re, text)
    decreases |re|, 1, |text|
  {
    MatchhereIff(re, text);
    assert text[0..] == text;
    if text != "" && Accepts(c, text[0]) {
      MatchstarIff(c, re, text[1..]);
      StarMore(c, re, text);
    } else {
      assert forall k | 0 <= k <= |text| && Repeats(c, text, k) :: k == 0;
    }
  }

  lemma StarMore(c: char, re: string, text: string)
    requires text != "" && Accepts(c, text[0])
    ensures StarBegins(c, re, text) <==> Begins(re, text) || StarBegins(c, re, text[1..])
  {
    assert text[0..] == text;
    if StarBegins(c, re, text) {
      var k :| 0 <= k <= |text| && Repeats(c, text, k) && Begins(re, text[k..]);
      if k > 0 {
        assert text[k..] == text[1..][k - 1..];
        assert Repeats(c, text[1..], k - 1);
      }
    }
    if Begins(re, text) {
      assert Repeats(c, text, 0);
    }
    if StarBegins(c, re, text[1..]) {
      var k :| 0 <= k <= |text[1..]| && Repeats(c, text[1..], k) && Begins(re, text[1..][k..]);
      assert text[1..][k..] == text[k + 1..];
      assert Repeats(c, text, k + 1);
    }
  }

  /** The text has a part, text[i..j], that the pattern describes: at the start if the
      pattern has a "^" there, at the end if it has a "$" there. */
  ghost predicate Contains(re: string, text: string) {
    exists i :: 0 <= i <= |text| && Begins(Body(re), text[i..]) && (re != "" && re[0] == '^' ==> i == 0)
  }

  function Body(re: string): string {
    if re != "" && re[0] == '^' then re[1..] else re
  }

  /** match finds a part of the text in the pattern's language, if there is one. */
  lemma MatchIff(re: string, text: string)
    ensures Match(re, text) <==> Contains(re, text)
  {
    assert text[0..] == text;
    if re != "" && re[0] == '^' {
      MatchhereIff(re[1..], text);
    } else {
      MatchFromIff(re, text);
    }
  }

  lemma {:induction false} MatchFromIff(re: string, text: string)
    ensures MatchFrom(re, text) <==> exists i :: 0 <= i <= |text| && Begins(re, text[i..])
    decreases |text|
  {
    MatchhereIff(re, text);
    assert text[0..] == text;
    if text != "" {
      MatchFromIff(re, text[1..]);
      if i :| 0 <= i <= |text[1..]| && Begins(re, text[1..][i..]) {
        assert text[1..][i..] == text[i + 1..];
      }
      if i :| 1 <= i <= |text| && Begins(re, text[i..]) {
        assert text[i..] == text[1..][i - 1..];
      }
    }
  }

  predicate NoNul(s: string) { forall i | 0 <= i < |s| :: s[i] != '\0' }

  method MatchhereAt(re: string, text: string) returns (r: bool)
    ensures r == Matchhere(re, text)
    decreases |re|, 0
  {
    if re == "" {
      return true;
    }
    if |re| > 1 && re[1] == '*' {
      r := MatchstarAt(re[0], re[2..], text);
      return;
    }
    if re == "$" {
      return text == "";
    }
    if text != "" && (re[0] == '.' || re[0] == text[0]) {
      r := MatchhereAt(re[1..], text[1..]);
      return;
    }
    return false;
  }

  method MatchstarAt(c: char, re: string, text: string) returns (r: bool)
    ensures r == Matchstar(c, re, text)
    decreases |re|, 1
  {
    var i := 0;
    assert text[0..] == text;
    while true
      invariant 0 <= i <= |text| && Matchstar(c, re, text) == Matchstar(c, re, text[i..])
      decreases |text| - i
    {
      var here := MatchhereAt(re, text[i..]);
      if here {
        return true;
      }
      if !(i < |text| && (text[i] == c || c == '.')) {
        break;
      }
      assert text[i..][1..] == text[i + 1..];
      i := i + 1;
    }
    return false;
  }

  method MatchAt(re: string, text: string) returns (r: bool)
    ensures r == Match(re, text)
  {
    if re != "" && re[0] == '^' {
      r := MatchhereAt(re[1..], text);
      return;
    }
    var i := 0;
    assert text[0..] == text;
    while true
      invariant 0 <= i <= |text| && MatchFrom(re, text) == MatchFrom(re, text[i..])
      decreases |text| - i
    {
      var here := MatchhereAt(re, text[i..]);
      if here {
        return true;
      }
      if i == |text| {
        break;
      }
      assert text[i..][1..] == text[i + 1..];
      i := i + 1;
    }
    return false;
  }

  const BUFSIZE: nat := 1024

  /** The position of the first newline, or the length. */
  function Newline(s: string): (n: nat)
    ensures n <= |s| && (n < |s| ==> s[n] == '\n') && forall k | 0 <= k < n :: s[k] != '\n'
  {
    if s == "" || s[0] == '\n' then 0 else 1 + Newline(s[1..])
  }

  /** The terminated lines of a text that match, with their newlines. */
  function Selected(re: string, s: string): string
    decreases |s|
  {
    var n := Newline(s);
    if n == |s| then "" else (if Match(re, s[..n]) then s[..n + 1] else "") + Selected(re, s[n + 1..])
  }

  /** The same, up to the first line that does not fit in the buffer. */
  function Shown(re: string, s: string): string
    decreases |s|
  {
    var n := Newline(s);
    if n == |s| || n >= BUFSIZE - 1 then "" else (if Match(re, s[..n]) then s[..n + 1] else "") + Shown(re, s[n + 1..])
  }

  predicate FitLines(s: string)
    decreases |s|
  {
    var n := Newline(s);
    n < |s| ==> n < BUFSIZE - 1 && FitLines(s[n + 1..])
  }

  /** Every terminated line that matches is shown, for every pattern, exactly when they
      all fit. */
  lemma ShownIff(s: string)
    ensures (forall re :: Shown(re, s) == Selected(re, s)) <==> FitLines(s)
  {
    if FitLines(s) {
      forall re
        ensures Shown(re, s) == Selected(re, s)
      {
        ShownAll(re, s);
      }
    } else {
      ShownLess(s);
    }
  }

  lemma {:induction false} ShownLess(s: string)
    requires !FitLines(s)
    ensures |Shown("", s)| < |Selected("", s)|
    decreases |s|
  {
    var n := Newline(s);
    assert Match("", s[..n]);
    if n < BUFSIZE - 1 {
      ShownLess(s[n + 1..]);
    }
  }

  lemma {:induction false} ShownAll(re: string, s: string)
    requires FitLines(s)
    ensures Shown(re, s) == Selected(re, s)
    decreases |s|
  {
    var n := Newline(s);
    if n < |s| {
      ShownAll(re, s[n + 1..]);
    }
  }

  /** grep: each read gives some of the bytes asked for, and what is written does not
      depend on how many. */
  method GrepFile(buf: array<char>, pattern: string, input: string) returns (out: string)
    requires buf.Length == BUFSIZE && NoNul(input)
    modifies buf
    ensures out == Shown(pattern, input)
  {
    hide Shown, Newline, NoNul;
    out := "";
    var m, done := 0, 0;
    Begin(buf[..0], input);
    while true
      invariant 0 <= m <= done <= |input| && m < BUFSIZE && Newline(buf[..m]) == m && NoNul(buf[..m])
      invariant out + Shown(pattern, buf[..m] + input[done..]) == Shown(pattern, input)
      decreases |input| - done
    {
      var want, left := BUFSIZE - m - 1, |input| - done;
      if want == 0 || left == 0 {
        Stuck(pattern, buf[..m], input[done..]);
        break;
      }
      var n: nat :| 0 < n <= want && n <= left;
      var written;
      Chunk(buf[..m], input, done, n);
      written, m := Refill(buf, pattern, m, input[done..done + n], input[done + n..]);
      out := out + written;
      done := done + n;
    }
  }

  lemma Begin(none: string, input: string)
    requires none == "" && NoNul(input)
    ensures none + input[0..] == input && Newline(none) == 0 && NoNul(none)
  {
  }

  lemma Chunk(pending: string, input: string, done: nat, n: nat)
    requires done + n <= |input| && NoNul(input) && NoNul(pending)
    ensures pending + input[done..] == pending + input[done..done + n] + input[done + n..]
    ensures NoNul(pending + input[done..done + n])
  {
    assert input[done..] == input[done..done + n] + input[done + n..];
  }

  /** What grep does with the bytes of one read: the complete lines are dealt with and
      the start of the next one is moved to the front. */
  method Refill(buf: array<char>, pattern: string, m: nat, data: string, ghost rest: string) returns (out: string,
                m': nat)
    requires buf.Length == BUFSIZE && m + |data| < BUFSIZE && NoNul(buf[..m] + data)
    modifies buf
    ensures m' <= m + |data| && Newline(buf[..m']) == m' && NoNul(buf[..m'])
    ensures Shown(pattern, old(buf[..m]) + data + rest) == out + Shown(pattern, buf[..m'] + rest)
  {
    hide Shown, Newline;
    FillBuffer(buf, m, data);
    var end := m + |data|;
    buf[end] := '\0';
    assert buf[..end] == old(buf[..m]) + data;
    var p;
    out, p := PrintLines(buf, pattern, end, rest);
    m' := end - p;
    assert forall k | 0 <= k < m' :: buf[p..end][k] == (old(buf[..m]) + data)[p + k];
    MoveDown(buf, p, m');
  }

  /** The bytes that read puts at buf + m. */
  method FillBuffer(buf: array<char>, m: nat, data: string)
    requires m + |data| <= buf.Length
    modifies buf
    ensures buf[..m + |data|] == old(buf[..m]) + data
  {
    var i := 0;
    while i < |data|
      invariant 0 <= i <= |data| && buf[..m + i] == old(buf[..m]) + data[..i]
    {
      buf[m + i] := data[i];
      i := i + 1;
    }
  }

  method MoveDown(buf: array<char>, p: nat, m: nat)
    requires p + m <= buf.Length
    modifies buf
    ensures buf[..m] == old(buf[p..p + m])
  {
    var i := 0;
    while i < m
      invariant 0 <= i <= m && (forall k | 0 <= k < i :: buf[k] == old(buf[p + k]))
      invariant forall k | i <= k < buf.Length :: buf[k] == old(buf[k])
    {
      buf[i] := buf[p + i];
      i := i + 1;
    }
  }

  /** strchr(p, newline) in the text that ends at m. */
  method FindNewline(buf: array<char>, p: nat, m: nat) returns (q: nat)
    requires p <= m < buf.Length && buf[m] == '\0' && NoNul(buf[p..m])
    ensures q == p + Newline(buf[p..m])
  {
    q := p;
    while buf[q] != '\0' && buf[q] != '\n'
      invariant p <= q <= m && forall k | p <= k < q :: buf[k] != '\n'
      decreases m - q
    {
      assert buf[p..m][q - p] == buf[q];
      q := q + 1;
    }
    FirstNewline(buf[p..m], q - p);
  }

  lemma {:induction false} FirstNewline(s: string, n: nat)
    requires n <= |s| && (forall k | 0 <= k < n :: s[k] != '\n') && (n < |s| ==> s[n] == '\n')
    ensures Newline(s) == n
  {
  }

  lemma NewlineIn(s: string, rest: string)
    ensures Newline(s) < |s| ==> Newline(s + rest) == Newline(s)
    ensures Newline(s) == |s| ==> Newline(s + rest) == |s| + Newline(rest)
  {
    if Newline(s) < |s| {
      FirstNewline(s + rest, Newline(s));
    } else {
      FirstNewline(s + rest, |s| + Newline(rest));
    }
  }

  lemma Stuck(re: string, s: string, rest: string)
    requires Newline(s) == |s| && (rest == "" || |s| == BUFSIZE - 1)
    ensures Shown(re, s + rest) == ""
  {
    NewlineIn(s, rest);
  }

  /** The lines of the buffer before position p, which is past the last newline. */
  method PrintLines(buf: array<char>, pattern: string, m: nat, ghost rest: string) returns (out: string, p: nat)
    requires m < buf.Length == BUFSIZE && buf[m] == '\0' && NoNul(buf[..m])
    modifies buf
    ensures p <= m && buf[p..m] == old(buf[p..m]) && Newline(buf[p..m]) == m - p
    ensures Shown(pattern, old(buf[..m]) + rest) == out + Shown(pattern, buf[p..m] + rest)
  {
    hide Shown, Match, Newline;
    out, p := "", 0;
    ghost var text := buf[..m];
    while true
      invariant p <= m && buf[m] == '\0' && forall k | p <= k < m :: buf[k] == text[k]
      invariant Shown(pattern, text + rest) == out + Shown(pattern, text[p..] + rest)
      decreases m - p
    {
      assert buf[p..m] == text[p..];
      var q := FindNewline(buf, p, m);
      if q == m {
        break;
      }
      NextLine(pattern, text, p, q, rest);
      assert buf[p..q] == text[p..q] && buf[p..q + 1] == text[p..q + 1];
      var line := TryLine(buf, pattern, p, q);
      out := out + line;
      p := q + 1;
    }
  }

  lemma NextLine(re: string, text: string, p: nat, q: nat, rest: string)
    requires p <= q < |text| < BUFSIZE && q == p + Newline(text[p..])
    ensures text[q] == '\n'
    ensures Shown(re, text[p..] + rest) ==
            (if Match(re, text[p..q]) then text[p..q + 1] else "") + Shown(re, text[q + 1..] + rest)
  {
    hide Shown, Match;
    LineShown(re, text[p..], rest);
    assert text[p..][..q - p] == text[p..q] && text[p..][..q - p + 1] == text[p..q + 1]
           && text[p..][q - p + 1..] == text[q + 1..];
  }

  /** What grep writes of one line, whose newline is at q. */
  method TryLine(buf: array<char>, pattern: string, p: nat, q: nat) returns (line: string)
    requires p <= q < buf.Length && buf[q] == '\n'
    modifies buf
    ensures line == if Match(pattern, old(buf[p..q])) then old(buf[p..q + 1]) else ""
    ensures forall k | 0 <= k < buf.Length && k != q :: buf[k] == old(buf[k])
  {
    buf[q] := '\0';
    assert buf[p..q] == old(buf[p..q]);
    var hit := MatchAt(pattern, buf[p..q]);
    line := "";
    if hit {
      buf[q] := '\n';
      line := buf[p..q + 1];
    }
  }

  lemma {:induction false} FirstShown(re: string, t: string)
    requires Newline(t) < |t| && Newline(t) + 1 < BUFSIZE
    ensures var n := Newline(t);
            Shown(re, t) == (if Match(re, t[..n]) then t[..n + 1] else "") + Shown(re, t[n + 1..])
  {
    hide Match, Newline;
  }

  lemma LineShown(re: string, s: string, rest: string)
    requires Newline(s) < |s| < BUFSIZE
    ensures var n := Newline(s);
            Shown(re, s + rest) == (if Match(re, s[..n]) then s[..n + 1] else "") + Shown(re, s[n + 1..] + rest)
  {
    hide Match, Shown, Newline;
    NewlineIn(s, rest);
    var n := Newline(s);
    FirstShown(re, s + rest);
    assert (s + rest)[..n] == s[..n] && (s + rest)[..n + 1] == s[..n + 1] && (s + rest)[n + 1..] == s[n + 1..] + rest;
  }
}
