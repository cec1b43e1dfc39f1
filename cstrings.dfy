/** C strings as the queue handles them: the characters before the terminator,
    the `strcmp` order used for sorting, and the bounded copies that
    `strncpy` performs when a payload is stored or handed back. */
module CStrings {

  /** The terminator '\0'. */
  const NUL: char := 0 as char

  /** Longest payload an element keeps, terminator excluded (queue.c:83). */
  const MaxLen: nat := 1024

  function Min(a: nat, b: nat): nat { if a <= b then a else b }

  /** A C string: no character of it is the terminator. */
  predicate IsCString(s: string) { NUL !in s }

  /** A buffer holds a terminated string when a NUL occurs in it. */
  predicate Terminated(buf: string) { NUL in buf }

  /** `strcmp`: the sign of the first difference; the end of a string sorts
      below every character, as its terminator does. */
  function Strcmp(a: string, b: string): (r: int)
    ensures -1 <= r <= 1
    ensures r == 0 <==> a == b
  {
    if a == [] then (if b == [] then 0 else -1)
    else if b == [] then 1
    else if a[0] < b[0] then -1
    else if b[0] < a[0] then 1
    else
      var r := Strcmp(a[1..], b[1..]);
      assert a == [a[0]] + a[1..] && b == [b[0]] + b[1..];
      r
  }

  /** The order the queue is sorted by: `strcmp(a, b) <= 0`. */
  predicate Le(a: string, b: string) { Strcmp(a, b) <= 0 }

  lemma {:induction false} StrcmpAntisymmetric(a: string, b: string)
    ensures Strcmp(a, b) == -Strcmp(b, a)
  {
    if a != [] && b != [] && a[0] == b[0] {
      StrcmpAntisymmetric(a[1..], b[1..]);
    }
  }

  /** `Le` is total: of two strings one is at most the other. */
  lemma LeTotal(a: string, b: string)
    ensures Le(a, b) || Le(b, a)
  {
    StrcmpAntisymmetric(a, b);
  }

  lemma {:induction false} LeTransitive(a: string, b: string, c: string)
    requires Le(a, b) && Le(b, c)
    ensures Le(a, c)
  {
    if a != [] && b != [] && c != [] && a[0] == b[0] == c[0] {
      LeTransitive(a[1..], b[1..], c[1..]);
    }
  }

  /** `strnlen(s, n)`: the length of `s`, but at most `n`. */
  function Strnlen(s: string, n: nat): (r: nat)
    ensures r <= n && r <= |s|
    ensures r == |s| || r == n
  {
    Min(|s|, n)
  }

  /** The `n` characters `strncpy(dst, src, n)` writes: `src` cut to `n`,
      padded with terminators. */
  function Strncpy(src: string, n: nat): (buf: string)
    ensures |buf| == n
    ensures forall i :: 0 <= i < n ==> buf[i] == if i < |src| then src[i] else NUL
  {
    if n <= |src| then src[..n] else src + seq(n - |src|, _ => NUL)
  }

  /** The C string a buffer holds when read: its characters before the first
      terminator (all of them when none is there). */
  function CStr(buf: string): (s: string)
    ensures IsCString(s) && s <= buf
    ensures |s| < |buf| ==> buf[|s|] == NUL
    ensures Terminated(buf) ==> |s| < |buf|
  {
    if buf == [] then []
    else if buf[0] == NUL then []
    else
      var t := CStr(buf[1..]);
      assert buf == [buf[0]] + buf[1..];
      [buf[0]] + t
  }

  /** A buffer whose first `k` characters form a C string and whose next
      character is the terminator reads back as those `k` characters. */
  lemma {:induction false} CStrOfPrefix(buf: string, k: nat)
    requires k < |buf| && IsCString(buf[..k]) && buf[k] == NUL
    ensures CStr(buf) == buf[..k]
  {
    if k > 0 {
      assert buf[0] in buf[..k];
      assert buf[1..][..k - 1] == buf[1..k];
      assert forall c :: c in buf[1..k] ==> c in buf[..k];
      CStrOfPrefix(buf[1..], k - 1);
      assert buf[..k] == [buf[0]] + buf[1..k];
    }
  }

  /** The payload buffer `q_insert_head`/`q_insert_tail` fill AS WRITTEN:
      `strnlen(s, 1024) + 1` characters copied by `strncpy`, with no
      terminator written afterwards (queue.c:84-90). */
  function InsertedBuffer(s: string): (buf: string)
    ensures |buf| == Strnlen(s, MaxLen) + 1
  {
    Strncpy(s, Strnlen(s, MaxLen) + 1)
  }

  /** As written, the stored buffer is terminated exactly when the input has
      at most 1024 characters: a longer input leaves 1025 copied characters
      and no terminator. */
  lemma InsertedBufferTerminatedIff(s: string)
    requires IsCString(s)
    ensures Terminated(InsertedBuffer(s)) <==> |s| <= MaxLen
  {
    var buf := InsertedBuffer(s);
    if |s| <= MaxLen {
      assert buf[|s|] == NUL;
    } else {
      assert buf == s[..MaxLen + 1];
      assert forall c :: c in s[..MaxLen + 1] ==> c in s;
    }
  }

  /** One input that shows it: 1025 copies of 'a' leave an unterminated buffer. */
  lemma InsertedBufferLongInput()
    ensures var s := seq(MaxLen + 1, _ => 'a');
            IsCString(s) && !Terminated(InsertedBuffer(s))
  {
    var s := seq(MaxLen + 1, _ => 'a');
    assert IsCString(s);
    InsertedBufferTerminatedIff(s);
  }

  /** The payload buffer as evidently intended: the same `strnlen(s, 1024) + 1`
      characters, the last of them the terminator. */
  function TerminatedBuffer(s: string): (buf: string)
    requires IsCString(s)
    ensures |buf| == Strnlen(s, MaxLen) + 1
    ensures Terminated(buf)
    ensures CStr(buf) == s[..Strnlen(s, MaxLen)]
  {
    var n := Strnlen(s, MaxLen);
    var buf := Strncpy(s, n) + [NUL];
    assert buf[..n] == s[..n];
    assert forall c :: c in s[..n] ==> c in s;
    CStrOfPrefix(buf, n);
    buf
  }

  /** The string an element keeps for input `s`, as evidently intended: its
      first 1024 characters. */
  function Stored(s: string): (t: string)
    requires IsCString(s)
    ensures IsCString(t) && |t| <= MaxLen && t <= s
    ensures t == s[..Strnlen(s, MaxLen)]
    ensures |s| <= MaxLen ==> t == s
  {
    var t := CStr(TerminatedBuffer(s));
    assert forall c :: c in s[..Strnlen(s, MaxLen)] ==> c in s;
    t
  }

  /** What `q_remove_head`/`q_remove_tail` leave in `sp[0..bufsize)`:
      `strncpy(sp, v, bufsize)` followed by `sp[bufsize - 1] = '\0'`
      (queue.c:158-160). */
  function CopyOut(v: string, bufsize: nat): (buf: string)
    requires bufsize >= 1
    ensures |buf| == bufsize && buf[bufsize - 1] == NUL
  {
    Strncpy(v, bufsize)[..bufsize - 1] + [NUL]
  }

  /** The caller reads back the removed string cut to `bufsize - 1` characters. */
  lemma CopyOutReadsBack(v: string, bufsize: nat)
    requires IsCString(v) && bufsize >= 1
    ensures CStr(CopyOut(v, bufsize)) == v[..Min(|v|, bufsize - 1)]
  {
    var buf := CopyOut(v, bufsize);
    var k := Min(|v|, bufsize - 1);
    assert buf[..k] == v[..k];
    assert forall c :: c in v[..k] ==> c in v;
    CStrOfPrefix(buf, k);
  }

  /** The round trip of an element: a string of at most 1024 characters that
      is stored and then removed into a buffer of `bufsize` characters reads
      back as itself, cut to `bufsize - 1` characters. */
  lemma StoredReadsBack(s: string, bufsize: nat)
    requires IsCString(s) && |s| <= MaxLen && bufsize >= 1
    ensures CStr(CopyOut(Stored(s), bufsize)) == s[..Min(|s|, bufsize - 1)]
  {
    CopyOutReadsBack(Stored(s), bufsize);
  }
}
