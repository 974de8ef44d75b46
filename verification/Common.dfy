/** Result types and the notions about strings that several components rely on. */
module Common {

  datatype Option<+T> = None | Some(value: T)

  datatype Result<+T, +E> = Success(value: T) | Failure(error: E)

  /** White space removed by JavaScript's String.prototype.trim. */
  predicate JsSpace(c: char) {
    c in {'\t', '\n', '\U{0B}', '\U{0C}', '\r', ' ', '\U{A0}', '\U{1680}',
          '\U{2028}', '\U{2029}', '\U{202F}', '\U{205F}', '\U{3000}', '\U{FEFF}'}
    || '\U{2000}' <= c <= '\U{200A}'
  }

  /** White space removed by Go's strings.TrimSpace. */
  predicate GoSpace(c: char) {
    c in {'\t', '\n', '\U{0B}', '\U{0C}', '\r', ' ', '\U{85}', '\U{A0}', '\U{1680}',
          '\U{2028}', '\U{2029}', '\U{202F}', '\U{205F}', '\U{3000}'}
    || '\U{2000}' <= c <= '\U{200A}'
  }

  /** The two sets by code point. They differ in U+0085 and U+FEFF. */
  lemma SpacesExactly(c: char)
    ensures JsSpace(c) <==>
            var n := c as int;
            || 0x09 <= n <= 0x0D || n == 0x20 || n == 0xA0 || n == 0x1680 || 0x2000 <= n <= 0x200A
            || n == 0x2028 || n == 0x2029 || n == 0x202F || n == 0x205F || n == 0x3000 || n == 0xFEFF
    ensures GoSpace(c) <==>
            var n := c as int;
            || 0x09 <= n <= 0x0D || n == 0x20 || n == 0x85 || n == 0xA0 || n == 0x1680 || 0x2000 <= n <= 0x200A
            || n == 0x2028 || n == 0x2029 || n == 0x202F || n == 0x205F || n == 0x3000
  {
  }

  /** A string that stays non-empty after trimming. */
  predicate NonBlank(s: string) {
    exists i :: 0 <= i < |s| && !JsSpace(s[i])
  }

  /** strings.TrimSpace. */
  function TrimSpace(s: string): string {
    if s == "" then ""
    else if GoSpace(s[0]) then TrimSpace(s[1..])
    else if GoSpace(s[|s| - 1]) then TrimSpace(s[..|s| - 1])
    else s
  }

  predicate AllSpace(s: string) {
    forall i :: 0 <= i < |s| ==> GoSpace(s[i])
  }

  /** Removing white space around `t`, and only that, is what turns `s` into it; nothing is left to remove. */
  ghost predicate TrimsTo(s: string, t: string) {
    && (exists a, b :: s == a + t + b && AllSpace(a) && AllSpace(b))
    && (t != "" ==> !GoSpace(t[0]) && !GoSpace(t[|t| - 1]))
  }

  lemma TrimsToWith(s: string, a: string, t: string, b: string)
    requires s == a + t + b && AllSpace(a) && AllSpace(b) && (t != "" ==> !GoSpace(t[0]) && !GoSpace(t[|t| - 1]))
    ensures TrimsTo(s, t)
  {
  }

  lemma SpaceBefore(c: char, s: string, t: string)
    requires GoSpace(c) && TrimsTo(s, t)
    ensures TrimsTo([c] + s, t)
  {
    var a, b :| s == a + t + b && AllSpace(a) && AllSpace(b);
    assert [c] + s == ([c] + a) + t + b;
    TrimsToWith([c] + s, [c] + a, t, b);
  }

  lemma SpaceAfter(s: string, t: string, c: char)
    requires GoSpace(c) && TrimsTo(s, t)
    ensures TrimsTo(s + [c], t)
  {
    var a, b :| s == a + t + b && AllSpace(a) && AllSpace(b);
    assert s + [c] == a + t + (b + [c]);
    TrimsToWith(s + [c], a, t, b + [c]);
  }

  lemma {:induction false} TrimSpaceTrims(s: string)
    ensures TrimsTo(s, TrimSpace(s))
    decreases |s|
  {
    if s != "" && GoSpace(s[0]) {
      TrimSpaceTrims(s[1..]);
      SpaceBefore(s[0], s[1..], TrimSpace(s[1..]));
      assert s == [s[0]] + s[1..];
    } else if s != "" && GoSpace(s[|s| - 1]) {
      TrimSpaceTrims(s[..|s| - 1]);
      SpaceAfter(s[..|s| - 1], TrimSpace(s[..|s| - 1]), s[|s| - 1]);
      assert s == s[..|s| - 1] + [s[|s| - 1]];
    } else {
      assert s == "" + s + "";
      TrimsToWith(s, "", s, "");
    }
  }

  /** The trimmed text starts no earlier than any other one does, and ends no later. */
  lemma TrimmedIsWithin(s: string, a: string, t: string, b: string, a': string, t': string, b': string)
    requires s == a + t + b && s == a' + t' + b' && AllSpace(a') && AllSpace(b')
    requires t != "" && !GoSpace(t[0]) && !GoSpace(t[|t| - 1])
    ensures |a'| <= |a| && |b'| <= |b|
  {
    assert s[|a|] == t[0] && s[|s| - |b| - 1] == t[|t| - 1];
    assert forall i :: 0 <= i < |a'| ==> s[i] == a'[i];
    assert forall i :: |s| - |b'| <= i < |s| ==> s[i] == b'[i - |a'| - |t'|];
  }

  /** There is only one such text. */
  lemma TrimmedIsUnique(s: string, t: string, t': string)
    requires TrimsTo(s, t) && TrimsTo(s, t')
    ensures t == t'
  {
    var a, b :| s == a + t + b && AllSpace(a) && AllSpace(b);
    var a', b' :| s == a' + t' + b' && AllSpace(a') && AllSpace(b');
    if t != "" { TrimmedIsWithin(s, a, t, b, a', t', b'); }
    if t' != "" { TrimmedIsWithin(s, a', t', b', a, t, b); }
    if t != "" && t' != "" {
      assert t == s[|a|..|s| - |b|] && t' == s[|a|..|s| - |b|];
    }
  }

  predicate Alnum(c: char) {
    'a' <= c <= 'z' || 'A' <= c <= 'Z' || '0' <= c <= '9'
  }

  /** `[A-Za-z0-9][A-Za-z0-9._-]*`, the whole string. */
  predicate IsName(s: string) {
    s != "" && Alnum(s[0]) && forall i :: 0 <= i < |s| ==> Alnum(s[i]) || s[i] in {'.', '_', '-'}
  }

  /** A name: letters, digits, dots, underscores and hyphens, a letter or digit first. */
  lemma NameExactly(s: string)
    ensures IsName(s) <==>
            && |s| > 0 && s[0] != '.' && s[0] != '_' && s[0] != '-'
            && forall i :: 0 <= i < |s| ==>
                 || 'a' <= s[i] <= 'z' || 'A' <= s[i] <= 'Z' || '0' <= s[i] <= '9'
                 || s[i] == '.' || s[i] == '_' || s[i] == '-'
  {
  }

  /** A SHA-256 digest in lowercase hexadecimal. */
  predicate HexDigest(s: string) {
    |s| == 64 && forall i :: 0 <= i < |s| ==> '0' <= s[i] <= '9' || 'a' <= s[i] <= 'f'
  }

  /** The pieces between separators, as by JavaScript's split and Go's strings.Split. */
  function Split(s: string, sep: char): (r: seq<string>)
    ensures r != []
  {
    if s == "" then [""]
    else
      var rest := Split(s[1..], sep);
      if s[0] == sep then [""] + rest else [[s[0]] + rest[0]] + rest[1..]
  }

  lemma {:induction false} SplitOff(a: string, b: string, sep: char)
    requires sep !in a
    ensures Split(a + [sep] + b, sep) == [a] + Split(b, sep)
  {
    var s := a + [sep] + b;
    if a == "" {
      assert s == [sep] + b && s[1..] == b;
    } else {
      assert s[1..] == a[1..] + [sep] + b;
      SplitOff(a[1..], b, sep);
      assert a == [a[0]] + a[1..];
    }
  }

  lemma {:induction false} SplitNone(a: string, sep: char)
    requires sep !in a
    ensures Split(a, sep) == [a]
  {
    if a != "" {
      SplitNone(a[1..], sep);
      assert a == [a[0]] + a[1..];
    }
  }

  /** Two pieces and no more: the string has exactly one separator. */
  lemma SplitTwo(s: string, sep: char, a: string, b: string)
    ensures Split(s, sep) == [a, b] <==> s == a + [sep] + b && sep !in a && sep !in b
  {
    if s == a + [sep] + b && sep !in a && sep !in b {
      SplitOff(a, b, sep);
      SplitNone(b, sep);
    }
    if Split(s, sep) == [a, b] {
      PiecesHaveNoSeparator(s, sep);
      SplitHead(s, sep);
      assert Split(s, sep)[1..] == [b];
      var rest := s[|a| + 1..];
      SplitHead(rest, sep);
    }
  }

  lemma {:induction false} PiecesHaveNoSeparator(s: string, sep: char)
    ensures forall i :: 0 <= i < |Split(s, sep)| ==> sep !in Split(s, sep)[i]
  {
    if s != "" { PiecesHaveNoSeparator(s[1..], sep); }
  }

  /** The first piece ends at the first separator. */
  lemma {:induction false} SplitHead(s: string, sep: char)
    ensures |Split(s, sep)| == 1 ==> s == Split(s, sep)[0]
    ensures |Split(s, sep)| > 1 ==>
              var a := Split(s, sep)[0];
              |a| < |s| && s == a + [sep] + s[|a| + 1..] && Split(s[|a| + 1..], sep) == Split(s, sep)[1..]
  {
    if s != "" && s[0] != sep {
      SplitHead(s[1..], sep);
      var rest := Split(s[1..], sep);
      assert Split(s, sep)[1..] == rest[1..];
      if |rest| > 1 {
        assert s[1..][|rest[0]| + 1..] == s[|rest[0]| + 2..];
      }
      assert s == [s[0]] + s[1..];
    }
  }
}
