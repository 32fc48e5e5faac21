/** Strings as the Go code handles them: prefixes, `strings.Split` and its inverse. */
module Text {

  /** `p` is a prefix of `k` exactly when what remains after a shared head is. */
  lemma PrefixCancel(head: string, p: string, k: string)
    ensures head + p <= head + k <==> p <= k
  {
    if p <= k {
      assert head + k == head + p + k[|p|..];
    }
    if head + p <= head + k {
      assert (head + k)[|head|..] == k;
      assert (head + p)[|head|..] == p;
      forall i | 0 <= i < |p| ensures p[i] == k[i] {
        assert (head + p)[|head| + i] == (head + k)[|head| + i];
      }
    }
  }

  /** Two prefixes of one string are comparable. */
  lemma PrefixesCompare(a: string, b: string, k: string)
    requires a <= k && b <= k
    ensures a <= b || b <= a
  {
    if |a| <= |b| {
      assert forall i :: 0 <= i < |a| ==> a[i] == k[i] == b[i];
    } else {
      assert forall i :: 0 <= i < |b| ==> b[i] == k[i] == a[i];
    }
  }

  /** `strings.Split(s, sep)` for a one-character separator. */
  function Split(s: string, sep: char): (parts: seq<string>)
    ensures |parts| >= 1
  {
    if s == "" then [""]
    else
      var rest := Split(s[1..], sep);
      if s[0] == sep then [""] + rest
      else [[s[0]] + rest[0]] + rest[1..]
  }

  function Join(parts: seq<string>, sep: char): string {
    if |parts| == 0 then ""
    else if |parts| == 1 then parts[0]
    else parts[0] + [sep] + Join(parts[1..], sep)
  }

  function Occurrences(s: string, c: char): nat {
    if s == "" then 0 else (if s[0] == c then 1 else 0) + Occurrences(s[1..], c)
  }

  lemma JoinNew(rest: seq<string>, sep: char)
    requires rest != []
    ensures Join([""] + rest, sep) == [sep] + Join(rest, sep)
  {
    assert ([""] + rest)[1..] == rest;
    assert "" + [sep] == [sep];
  }

  lemma JoinGrown(c: char, rest: seq<string>, sep: char)
    requires rest != []
    ensures Join([[c] + rest[0]] + rest[1..], sep) == [c] + Join(rest, sep)
  {
    var parts := [[c] + rest[0]] + rest[1..];
    assert parts[1..] == rest[1..];
    if |rest| > 1 {
      assert [c] + (rest[0] + [sep] + Join(rest[1..], sep)) == ([c] + rest[0]) + [sep] + Join(rest[1..], sep);
    }
  }

  /** Splitting cuts at every separator and nowhere else, and joining undoes it. */
  lemma {:induction false} SplitMeaning(s: string, sep: char)
    ensures Join(Split(s, sep), sep) == s
    ensures |Split(s, sep)| == 1 + Occurrences(s, sep)
    ensures forall i :: 0 <= i < |Split(s, sep)| ==> sep !in Split(s, sep)[i]
  {
    if s != "" {
      SplitMeaning(s[1..], sep);
      var rest := Split(s[1..], sep);
      JoinNew(rest, sep);
      JoinGrown(s[0], rest, sep);
      assert s == [s[0]] + s[1..];
    }
  }

  lemma {:induction false} SplitWithout(s: string, sep: char)
    requires sep !in s
    ensures Split(s, sep) == [s]
  {
    if s != "" {
      SplitWithout(s[1..], sep);
      assert [s[0]] + s[1..] == s;
    }
  }

  /** The part before the first separator is split off whole. */
  lemma {:induction false} SplitHead(head: string, tail: string, sep: char)
    requires sep !in head
    ensures Split(head + [sep] + tail, sep) == [head] + Split(tail, sep)
  {
    var s := head + [sep] + tail;
    if head == "" {
      assert s[1..] == tail;
    } else {
      SplitHead(head[1..], tail, sep);
      assert s[1..] == head[1..] + [sep] + tail;
      assert [head[0]] + head[1..] == head;
    }
  }

  /** Splitting undoes joining when no part contains the separator. */
  lemma {:induction false} SplitOfJoin(parts: seq<string>, sep: char)
    requires |parts| >= 1
    requires forall i :: 0 <= i < |parts| ==> sep !in parts[i]
    ensures Split(Join(parts, sep), sep) == parts
  {
    if |parts| == 1 {
      SplitWithout(parts[0], sep);
    } else {
      SplitOfJoin(parts[1..], sep);
      SplitHead(parts[0], Join(parts[1..], sep), sep);
      assert [parts[0]] + parts[1..] == parts;
    }
  }

  /** `s := strings.Split(key, "/"); s[len(s)-1]`. */
  function LastSegment(key: string): string {
    var parts := Split(key, '/');
    parts[|parts| - 1]
  }

  /** Everything up to a slash is irrelevant to the last segment. */
  lemma {:induction false} LastSegmentAfterSlash(head: string, tail: string)
    ensures LastSegment(head + "/" + tail) == LastSegment(tail)
  {
    var s := head + "/" + tail;
    if head == "" {
      assert s[1..] == tail;
    } else {
      LastSegmentAfterSlash(head[1..], tail);
      assert s[1..] == head[1..] + "/" + tail;
      SplitPastSlash(head[1..], tail);
    }
  }

  lemma {:induction false} SplitPastSlash(head: string, tail: string)
    ensures |Split(head + "/" + tail, '/')| >= 2
  {
    if head == "" {
      assert (head + "/" + tail)[1..] == tail;
    } else {
      SplitPastSlash(head[1..], tail);
      assert (head + "/" + tail)[1..] == head[1..] + "/" + tail;
    }
  }

  lemma LastSegmentIsSlashFree(key: string)
    ensures '/' !in LastSegment(key)
  {
    SplitMeaning(key, '/');
  }

  /** A suffix survives key decoding exactly when it contains no slash. */
  lemma LastSegmentRoundTrip(head: string, suffix: string)
    ensures LastSegment(head + "/" + suffix) == suffix <==> '/' !in suffix
  {
    LastSegmentAfterSlash(head, suffix);
    LastSegmentIsSlashFree(suffix);
    if '/' !in suffix {
      SplitWithout(suffix, '/');
    }
  }
}
