/**
 * The changefeed file name `full_id` and the table it addresses. A
 * CockroachDB changefeed writing to a cloud-storage sink names each file
 * `<prefix>-<db>.<schema>.<table>-<n>.ndjson`; the handler recovers the
 * three names with
 *
 *     re.search(r'^.+?-(\w+)\.(\w+)\.(\w+)-\d+\.ndjson', full_id)
 *
 * `MatchTail` is the part after the lazy prefix and `ParseAddress` the
 * search for the shortest prefix that lets it match. Word characters and
 * digits are the ASCII ones.
 */
module ChangefeedAddress {
  import opened Wrappers

  datatype TableAddress = TableAddress(db: string, schema: string, table: string)

  /** `\w` on ASCII text. */
  predicate IsWordChar(c: char)
  {
    ('A' <= c <= 'Z') || ('a' <= c <= 'z') || ('0' <= c <= '9') || c == '_'
  }

  /** `\d` on ASCII text. */
  predicate IsDigit(c: char)
  {
    '0' <= c <= '9'
  }

  /** What `\w+` can match. */
  predicate IsWord(s: string)
  {
    |s| > 0 && forall i :: 0 <= i < |s| ==> IsWordChar(s[i])
  }

  /** What `\d+` can match. */
  predicate IsDigits(s: string)
  {
    |s| > 0 && forall i :: 0 <= i < |s| ==> IsDigit(s[i])
  }

  /** The three groups are each what `\w+` can match. */
  predicate IsAddress(a: TableAddress)
  {
    IsWord(a.db) && IsWord(a.schema) && IsWord(a.table)
  }

  /** A word holds no character that is not a word character, `-`, `.` or `/` say. */
  lemma WordLacks(w: string, c: char)
    requires IsWord(w) && !IsWordChar(c)
    ensures c !in w
  {
  }

  const Extension: string := ".ndjson"

  /** The text `(\w+)\.(\w+)\.(\w+)-\d+\.ndjson` matches with these groups and digits. */
  function Tail(a: TableAddress, digits: string): string
  {
    a.db + ("." + (a.schema + ("." + (a.table + ("-" + (digits + Extension))))))
  }

  /** From position `i` on, `s` spells `w`. */
  ghost predicate SpellsAt(s: string, i: int, w: string)
  {
    0 <= i && i + |w| <= |s| && forall k :: 0 <= k < |w| ==> s[i + k] == w[k]
  }

  /** From position `i` on, `s` spells the word `w` followed by `sep`. */
  ghost predicate WordThenAt(s: string, i: int, w: string, sep: char)
  {
    IsWord(w) && SpellsAt(s, i, w) && i + |w| < |s| && s[i + |w|] == sep
  }

  /** From position `m` on, `s` spells `digits` followed by `.ndjson`. */
  ghost predicate DigitsThenExtensionAt(s: string, m: int, digits: string)
  {
    IsDigits(digits) && SpellsAt(s, m, digits) && SpellsAt(s, m + |digits|, Extension)
  }

  /**
   * After the `-` at position `p`, the text `(\w+)\.(\w+)\.(\w+)-\d+\.ndjson`
   * matches with groups `a` and `digits` for `\d+`: from `p + 1` on, `s`
   * spells `<db>.<schema>.<table>-<digits>.ndjson`.
   */
  ghost predicate TailAfter(s: string, p: int, a: TableAddress, digits: string)
  {
    var j := p + 1 + |a.db| + 1;
    var l := j + |a.schema| + 1;
    var m := l + |a.table| + 1;
    WordThenAt(s, p + 1, a.db, '.') && WordThenAt(s, j, a.schema, '.')
    && WordThenAt(s, l, a.table, '-') && DigitsThenExtensionAt(s, m, digits)
  }

  /**
   * The pattern matches `s` with a lazy prefix of length `p` and groups `a`:
   * the prefix is non-empty and holds no newline (`.` does not match one),
   * a `-` follows it, and the rest of the pattern matches after that `-`.
   * Anything may follow `.ndjson`, since the pattern has no end anchor.
   */
  ghost predicate MatchesAt(s: string, p: int, a: TableAddress)
  {
    1 <= p < |s| && '\n' !in s[..p] && s[p] == '-'
    && exists digits :: TailAfter(s, p, a, digits)
  }

  /** `a` is the match `re.search` reports: no shorter prefix lets the pattern match. */
  ghost predicate LeftmostMatch(s: string, p: int, a: TableAddress)
  {
    MatchesAt(s, p, a) && forall q, b :: 1 <= q < p ==> !MatchesAt(s, q, b)
  }

  /** The length of the longest run of word characters from `i`: what greedy `\w+` takes. */
  function WordRun(s: string, i: nat): (n: nat)
    requires i <= |s|
    ensures i + n <= |s|
    decreases |s| - i
  {
    if i < |s| && IsWordChar(s[i]) then 1 + WordRun(s, i + 1) else 0
  }

  /** The length of the longest run of digits from `i`: what greedy `\d+` takes. */
  function DigitRun(s: string, i: nat): (n: nat)
    requires i <= |s|
    ensures i + n <= |s|
    decreases |s| - i
  {
    if i < |s| && IsDigit(s[i]) then 1 + DigitRun(s, i + 1) else 0
  }

  /** `WordRun` covers word characters only, and stops at the first other character. */
  lemma {:induction false} WordRunSpec(s: string, i: nat)
    requires i <= |s|
    ensures forall k :: i <= k < i + WordRun(s, i) ==> IsWordChar(s[k])
    ensures i + WordRun(s, i) < |s| ==> !IsWordChar(s[i + WordRun(s, i)])
    decreases |s| - i
  {
    if i < |s| && IsWordChar(s[i]) {
      WordRunSpec(s, i + 1);
    }
  }

  /** `DigitRun` covers digits only, and stops at the first other character. */
  lemma {:induction false} DigitRunSpec(s: string, i: nat)
    requires i <= |s|
    ensures forall k :: i <= k < i + DigitRun(s, i) ==> IsDigit(s[k])
    ensures i + DigitRun(s, i) < |s| ==> !IsDigit(s[i + DigitRun(s, i)])
    decreases |s| - i
  {
    if i < |s| && IsDigit(s[i]) {
      DigitRunSpec(s, i + 1);
    }
  }

  /**
   * Matches `(\w+)` followed by the separator `sep` at position `i`, and
   * gives the position after the separator. The separator is never a word
   * character, so the group is the whole run of word characters from `i`:
   * backtracking can find no other match.
   */
  function WordThen(s: string, i: nat, sep: char): (r: Option<nat>)
    requires i <= |s|
    ensures r.Some? ==> i + 2 <= r.value <= |s|
  {
    var n := WordRun(s, i);
    if n > 0 && i + n < |s| && s[i + n] == sep then Some(i + n + 1) else None
  }

  /**
   * Matches `(\w+)\.(\w+)\.(\w+)-\d+\.ndjson` at position `i`; `\d+` is
   * likewise the whole run of digits, since `.` is not a digit.
   */
  function MatchTail(s: string, i: nat): (r: Option<TableAddress>)
    requires i <= |s|
  {
    match WordThen(s, i, '.')
    case None => None
    case Some(j) =>
      match WordThen(s, j, '.')
      case None => None
      case Some(l) =>
        match WordThen(s, l, '-')
        case None => None
        case Some(m) =>
          if DigitsThenExtension(s, m) then Some(TableAddress(s[i..j - 1], s[j..l - 1], s[l..m - 1]))
          else None
  }

  /** Matches `\d+\.ndjson` at position `m`. */
  predicate DigitsThenExtension(s: string, m: nat)
    requires m <= |s|
  {
    var d := DigitRun(s, m);
    d > 0 && Extension <= s[m + d..]
  }

  /** Tries the lazy prefix lengths `p`, `p + 1`, ... in turn, as the regex engine does. */
  function SearchFrom(s: string, p: nat): Option<TableAddress>
    requires 1 <= p
    decreases |s| - p
  {
    if p >= |s| || s[p - 1] == '\n' then None
    else if s[p] == '-' && MatchTail(s, p + 1).Some? then MatchTail(s, p + 1)
    else SearchFrom(s, p + 1)
  }

  /** `(db, schema, table)` of the match, or `None` where `re.search` returns `None`. */
  function ParseAddress(fullId: string): Option<TableAddress>
  {
    SearchFrom(fullId, 1)
  }

  lemma {:induction false} WordRunExact(s: string, i: nat, n: nat)
    requires i + n <= |s|
    requires forall k :: i <= k < i + n ==> IsWordChar(s[k])
    requires i + n == |s| || !IsWordChar(s[i + n])
    ensures WordRun(s, i) == n
    decreases n
  {
    if n > 0 {
      WordRunExact(s, i + 1, n - 1);
    }
  }

  lemma {:induction false} DigitRunExact(s: string, i: nat, n: nat)
    requires i + n <= |s|
    requires forall k :: i <= k < i + n ==> IsDigit(s[k])
    requires i + n == |s| || !IsDigit(s[i + n])
    ensures DigitRun(s, i) == n
    decreases n
  {
    if n > 0 {
      DigitRunExact(s, i + 1, n - 1);
    }
  }

  /** A word followed by its separator is what `WordThen` finds. */
  lemma WordThenComplete(s: string, i: nat, w: string, sep: char)
    requires WordThenAt(s, i, w, sep) && !IsWordChar(sep)
    ensures WordThen(s, i, sep) == Some(i + |w| + 1)
  {
    assert forall k :: i <= k < i + |w| ==> s[k] == w[k - i];
    WordRunExact(s, i, |w|);
  }

  lemma DigitsThenExtensionComplete(s: string, m: nat, digits: string)
    requires DigitsThenExtensionAt(s, m, digits)
    ensures DigitsThenExtension(s, m)
  {
    var e := m + |digits|;
    forall k | m <= k < e ensures IsDigit(s[k]) {
      assert s[m + (k - m)] == digits[k - m];
    }
    assert s[e] == Extension[0];
    DigitRunExact(s, m, |digits|);
    forall k | 0 <= k < |Extension| ensures s[e..][k] == Extension[k] {
      assert s[e..][k] == s[e + k];
    }
  }

  /** `MatchTail` from the outcomes of its steps. */
  lemma MatchTailSteps(s: string, i: nat, j: nat, l: nat, m: nat, a: TableAddress)
    requires i <= |s| && WordThen(s, i, '.') == Some(j)
    requires j <= |s| && WordThen(s, j, '.') == Some(l)
    requires l <= |s| && WordThen(s, l, '-') == Some(m)
    requires m <= |s| && DigitsThenExtension(s, m)
    requires a == TableAddress(s[i..j - 1], s[j..l - 1], s[l..m - 1])
    ensures MatchTail(s, i) == Some(a)
  {
  }

  /** The outcomes of the steps of a successful `MatchTail`. */
  lemma MatchTailParts(s: string, i: nat, a: TableAddress) returns (j: nat, l: nat, m: nat)
    requires i <= |s| && MatchTail(s, i) == Some(a)
    ensures WordThen(s, i, '.') == Some(j) && j <= |s| && WordThen(s, j, '.') == Some(l)
    ensures l <= |s| && WordThen(s, l, '-') == Some(m) && m <= |s| && DigitsThenExtension(s, m)
    ensures a == TableAddress(s[i..j - 1], s[j..l - 1], s[l..m - 1])
    ensures j == i + |a.db| + 1 && l == j + |a.schema| + 1 && m == l + |a.table| + 1
  {
    j := WordThen(s, i, '.').value;
    l := WordThen(s, j, '.').value;
    m := WordThen(s, l, '-').value;
  }

  /** What `MatchTail` reports is a genuine match of the tail of the pattern. */
  lemma MatchTailSound(s: string, p: nat, a: TableAddress) returns (digits: string)
    requires p < |s| && MatchTail(s, p + 1) == Some(a)
    ensures TailAfter(s, p, a, digits)
  {
    var m := MatchTailGroups(s, p, a);
    digits := DigitsThenExtensionSound(s, m);
    StepsTail(s, p, a, digits);
  }

  /** The groups `MatchTail` reports are words, each followed by its separator. */
  lemma MatchTailGroups(s: string, p: nat, a: TableAddress) returns (m: nat)
    requires p < |s| && MatchTail(s, p + 1) == Some(a)
    ensures WordThenAt(s, p + 1, a.db, '.')
    ensures WordThenAt(s, p + 1 + |a.db| + 1, a.schema, '.')
    ensures WordThenAt(s, p + 1 + |a.db| + 1 + |a.schema| + 1, a.table, '-')
    ensures m == p + 1 + |a.db| + 1 + |a.schema| + 1 + |a.table| + 1
    ensures m <= |s| && DigitsThenExtension(s, m)
  {
    var j, l;
    j, l, m := MatchTailParts(s, p + 1, a);
    GroupsFromParts(s, p, a, j, l, m);
  }

  lemma GroupsFromParts(s: string, p: nat, a: TableAddress, j: nat, l: nat, m: nat)
    requires p < |s|
    requires WordThen(s, p + 1, '.') == Some(j) && j <= |s| && WordThen(s, j, '.') == Some(l)
    requires l <= |s| && WordThen(s, l, '-') == Some(m)
    requires a == TableAddress(s[p + 1..j - 1], s[j..l - 1], s[l..m - 1])
    requires j == p + 1 + |a.db| + 1 && l == j + |a.schema| + 1 && m == l + |a.table| + 1
    ensures WordThenAt(s, p + 1, a.db, '.')
    ensures WordThenAt(s, p + 1 + |a.db| + 1, a.schema, '.')
    ensures WordThenAt(s, p + 1 + |a.db| + 1 + |a.schema| + 1, a.table, '-')
  {
    WordThenSound(s, p + 1, '.', j, a.db);
    WordThenSound(s, j, '.', l, a.schema);
    WordThenSound(s, l, '-', m, a.table);
  }

  /** The pieces of the tail of the pattern, one after the other, make up the whole. */
  lemma StepsTail(s: string, p: nat, a: TableAddress, digits: string)
    requires WordThenAt(s, p + 1, a.db, '.')
    requires WordThenAt(s, p + 1 + |a.db| + 1, a.schema, '.')
    requires WordThenAt(s, p + 1 + |a.db| + 1 + |a.schema| + 1, a.table, '-')
    requires DigitsThenExtensionAt(s, p + 1 + |a.db| + 1 + |a.schema| + 1 + |a.table| + 1, digits)
    ensures TailAfter(s, p, a, digits)
  {
  }

  /** What `WordThen` finds is a word followed by its separator. */
  lemma WordThenSound(s: string, i: nat, sep: char, j: nat, w: string)
    requires i <= |s| && WordThen(s, i, sep) == Some(j) && w == s[i..j - 1]
    ensures WordThenAt(s, i, w, sep)
  {
    WordRunSpec(s, i);
  }

  /** What `DigitsThenExtension` accepts is digits followed by `.ndjson`. */
  lemma DigitsThenExtensionSound(s: string, m: nat) returns (digits: string)
    requires m <= |s| && DigitsThenExtension(s, m)
    ensures DigitsThenExtensionAt(s, m, digits)
  {
    var e := m + DigitRun(s, m);
    DigitRunSpec(s, m);
    digits := s[m..e];
    forall k | 0 <= k < |Extension| ensures s[e + k] == Extension[k] {
      assert s[e..][k] == s[e + k];
    }
  }

  /** Every genuine match of the tail of the pattern is the one `MatchTail` reports. */
  lemma MatchTailComplete(s: string, p: nat, a: TableAddress, digits: string)
    requires TailAfter(s, p, a, digits)
    ensures MatchTail(s, p + 1) == Some(a)
  {
    var j, l, m := TailSteps(s, p, a, digits);
    MatchTailSteps(s, p + 1, j, l, m, a);
  }

  /** The outcomes of the steps of `MatchTail` on a genuine match of the tail of the pattern. */
  lemma TailSteps(s: string, p: nat, a: TableAddress, digits: string) returns (j: nat, l: nat, m: nat)
    requires TailAfter(s, p, a, digits)
    ensures p + 1 <= |s| && WordThen(s, p + 1, '.') == Some(j) && j <= |s| && WordThen(s, j, '.') == Some(l)
    ensures l <= |s| && WordThen(s, l, '-') == Some(m) && m <= |s| && DigitsThenExtension(s, m)
    ensures a == TableAddress(s[p + 1..j - 1], s[j..l - 1], s[l..m - 1])
  {
    j := p + 1 + |a.db| + 1;
    l := j + |a.schema| + 1;
    m := l + |a.table| + 1;
    GroupComplete(s, p + 1, a.db, '.', j);
    GroupComplete(s, j, a.schema, '.', l);
    GroupComplete(s, l, a.table, '-', m);
    DigitsThenExtensionComplete(s, m, digits);
  }

  /** A word followed by its separator is matched by `WordThen`, and the group is that word. */
  lemma GroupComplete(s: string, i: nat, w: string, sep: char, j: nat)
    requires WordThenAt(s, i, w, sep) && !IsWordChar(sep) && j == i + |w| + 1
    ensures j <= |s| && WordThen(s, i, sep) == Some(j) && s[i..j - 1] == w
  {
    WordThenComplete(s, i, w, sep);
  }

  /** For a given prefix length the groups are unique. */
  lemma MatchesAtUnique(s: string, p: int, a: TableAddress, b: TableAddress)
    requires MatchesAt(s, p, a) && MatchesAt(s, p, b)
    ensures a == b
  {
    var da :| TailAfter(s, p, a, da);
    var db :| TailAfter(s, p, b, db);
    MatchTailComplete(s, p, a, da);
    MatchTailComplete(s, p, b, db);
  }

  /** `MatchesAt` for the prefix length `p` holds exactly when `SearchFrom` would stop there. */
  lemma MatchesAtTail(s: string, p: nat)
    requires 1 <= p < |s| && '\n' !in s[..p]
    ensures (s[p] == '-' && MatchTail(s, p + 1).Some?) ==> MatchesAt(s, p, MatchTail(s, p + 1).value)
    ensures forall b :: MatchesAt(s, p, b) ==> s[p] == '-' && MatchTail(s, p + 1) == Some(b)
  {
    if s[p] == '-' && MatchTail(s, p + 1).Some? {
      var digits := MatchTailSound(s, p, MatchTail(s, p + 1).value);
    }
    forall b | MatchesAt(s, p, b) ensures s[p] == '-' && MatchTail(s, p + 1) == Some(b) {
      var digits :| TailAfter(s, p, b, digits);
      MatchTailComplete(s, p, b, digits);
    }
  }

  lemma {:induction false} SearchFromCorrect(s: string, p0: nat)
    requires 1 <= p0
    requires forall k :: 0 <= k < p0 - 1 && k < |s| ==> s[k] != '\n'
    requires forall q, b :: 1 <= q < p0 ==> !MatchesAt(s, q, b)
    ensures SearchFrom(s, p0).Some? ==> LeftmostMatch(s, FirstMatch(s, p0), SearchFrom(s, p0).value)
    ensures SearchFrom(s, p0).None? ==> forall q, b :: !MatchesAt(s, q, b)
    decreases |s| - p0
  {
    if p0 >= |s| || s[p0 - 1] == '\n' {
      forall q, b ensures !MatchesAt(s, q, b) {
        if 1 <= q < |s| && q >= p0 {
          assert s[..q][p0 - 1] == s[p0 - 1];
        }
      }
    } else {
      assert '\n' !in s[..p0];
      MatchesAtTail(s, p0);
      if !(s[p0] == '-' && MatchTail(s, p0 + 1).Some?) {
        SearchFromCorrect(s, p0 + 1);
      }
    }
  }

  /** The prefix length at which `SearchFrom(s, p)` stops. */
  function FirstMatch(s: string, p: nat): (q: nat)
    requires 1 <= p
    decreases |s| - p
  {
    if p >= |s| || s[p - 1] == '\n' then p
    else if s[p] == '-' && MatchTail(s, p + 1).Some? then p
    else FirstMatch(s, p + 1)
  }

  /**
   * `ParseAddress` is `re.search` with this pattern: when it reports groups,
   * they are those of the match with the shortest prefix; when it reports
   * `None`, no prefix length lets the pattern match.
   */
  lemma ParseAddressCorrect(s: string)
    ensures ParseAddress(s).Some? ==> exists p :: LeftmostMatch(s, p, ParseAddress(s).value)
    ensures ParseAddress(s).None? ==> forall p, a :: !MatchesAt(s, p, a)
  {
    SearchFromCorrect(s, 1);
  }

  /** The reported groups are each a non-empty run of ASCII word characters. */
  lemma ParseAddressWords(s: string)
    requires ParseAddress(s).Some?
    ensures IsAddress(ParseAddress(s).value)
  {
    ParseAddressCorrect(s);
    var p :| LeftmostMatch(s, p, ParseAddress(s).value);
    var digits :| TailAfter(s, p, ParseAddress(s).value, digits);
  }

  /** Conversely, the leftmost match is what `ParseAddress` reports. */
  lemma ParseAddressComplete(s: string, p: int, a: TableAddress)
    requires LeftmostMatch(s, p, a)
    ensures ParseAddress(s) == Some(a)
  {
    ParseAddressCorrect(s);
    var r := ParseAddress(s);
    assert r.Some?;
    var p' :| LeftmostMatch(s, p', r.value);
    assert p' == p;
    MatchesAtUnique(s, p, a, r.value);
  }

  /** The pattern has no end anchor: text after `.ndjson` does not stop a match. */
  lemma MatchesAtExtended(s: string, p: int, a: TableAddress, extra: string)
    requires MatchesAt(s, p, a)
    ensures MatchesAt(s + extra, p, a)
    ensures ParseAddress(s + extra).Some?
  {
    var digits :| TailAfter(s, p, a, digits);
    var t := s + extra;
    assert t[..p] == s[..p];
    TailAfterExtended(s, p, a, digits, extra);
    ParseAddressCorrect(t);
  }

  /**
   * Appending text does not change the parse either: a match at an
   * earlier `-` of `s + extra` would end inside `s`, and so would already
   * be a match of `s`.
   */
  lemma ParseAddressExtended(s: string, extra: string)
    requires ParseAddress(s).Some?
    ensures ParseAddress(s + extra) == ParseAddress(s)
  {
    ParseAddressCorrect(s);
    var a := ParseAddress(s).value;
    var p :| LeftmostMatch(s, p, a);
    var t := s + extra;
    MatchesAtExtended(s, p, a, extra);
    forall q, b | 1 <= q < p ensures !MatchesAt(t, q, b) {
      if MatchesAt(t, q, b) {
        EarlierMatchInside(s, extra, q, b, p, a);
      }
    }
    ParseAddressComplete(t, p, a);
  }

  /** A match of `s + extra` at a `-` before a match of `s` is a match of `s`. */
  lemma EarlierMatchInside(s: string, extra: string, q: int, b: TableAddress, p: int, a: TableAddress)
    requires MatchesAt(s + extra, q, b) && MatchesAt(s, p, a) && q < p
    ensures MatchesAt(s, q, b)
  {
    var t := s + extra;
    var d :| TailAfter(t, q, b, d);
    var ad :| TailAfter(s, p, a, ad);
    TailAfterExtended(s, p, a, ad, extra);
    assert t[p] == s[p];
    TailEndsBefore(t, q, b, d, p, a, ad);
    TailAfterRestricted(s, extra, q, b, d);
    assert s[..q] == t[..q];
  }

  /** Where the tail after `p` ends: after `.ndjson`. */
  function TailEnd(p: int, a: TableAddress, digits: string): int
  {
    p + 1 + |a.db| + 1 + |a.schema| + 1 + |a.table| + 1 + |digits| + |Extension|
  }

  /**
   * Of two tails in one text, the one after an earlier `-` ends no later:
   * the later `-` can only be the one before its digits, and then the
   * later tail's schema covers `ndjson`.
   */
  lemma TailEndsBefore(t: string, q: int, b: TableAddress, d: string, p: int, a: TableAddress, ad: string)
    requires TailAfter(t, q, b, d) && TailAfter(t, p, a, ad) && q < p && t[p] == '-'
    ensures TailEnd(q, b, d) <= TailEnd(p, a, ad)
  {
    var j := q + 1 + |b.db| + 1;
    var l := j + |b.schema| + 1;
    var m := l + |b.table| + 1;
    var e := m + |d|;
    WordEndsBy(t, q + 1, b.db, p);
    WordEndsBy(t, j, b.schema, p);
    WordEndsBy(t, l, b.table, p);
    DigitsAreWord(d);
    if p == m - 1 {
      assert t[e + 0] == Extension[0];
      WordEndsBy(t, m, a.db, e);
      WordEndsBy(t, m, d, m + |a.db|);
      var jp := p + 1 + |a.db| + 1;
      assert jp == e + 1;
      ExtensionWord(t, e);
      WordEndsBy(t, jp, "ndjson", jp + |a.schema|);
    } else {
      WordEndsBy(t, m, d, p);
      ExtensionEndsBy(t, e, p);
    }
  }

  /** A word spelled from `i` ends by the first non-word character at or after `i`. */
  lemma WordEndsBy(t: string, i: int, w: string, p: int)
    requires IsWord(w) && SpellsAt(t, i, w) && i <= p < |t| && !IsWordChar(t[p])
    ensures i + |w| <= p
  {
    forall k | i <= k < i + |w| ensures IsWordChar(t[k]) {
      assert t[i + (k - i)] == w[k - i];
    }
  }

  lemma DigitsAreWord(d: string)
    requires IsDigits(d)
    ensures IsWord(d)
  {
  }

  /** After the dot of `.ndjson` comes the word `ndjson`. */
  lemma ExtensionWord(t: string, e: int)
    requires SpellsAt(t, e, Extension)
    ensures SpellsAt(t, e + 1, "ndjson") && IsWord("ndjson")
  {
    forall k | 0 <= k < 6 ensures t[e + 1 + k] == "ndjson"[k] {
      assert t[e + (k + 1)] == Extension[k + 1];
    }
  }

  /** `.ndjson` holds no `-`, so a `-` at or after its start comes after it. */
  lemma ExtensionEndsBy(t: string, e: int, p: int)
    requires SpellsAt(t, e, Extension) && e <= p < |t| && t[p] == '-'
    ensures e + |Extension| <= p
  {
    forall k | e <= k < e + |Extension| ensures t[k] != '-' {
      assert t[e + (k - e)] == Extension[k - e];
    }
  }

  /** A tail that `s + extra` spells within the length of `s` is spelled by `s`. */
  lemma TailAfterRestricted(s: string, extra: string, q: int, b: TableAddress, d: string)
    requires TailAfter(s + extra, q, b, d) && TailEnd(q, b, d) <= |s|
    ensures TailAfter(s, q, b, d)
  {
    var t := s + extra;
    var j := q + 1 + |b.db| + 1;
    var l := j + |b.schema| + 1;
    var m := l + |b.table| + 1;
    SpellsAtRestricted(s, extra, q + 1, b.db);
    SpellsAtRestricted(s, extra, j, b.schema);
    SpellsAtRestricted(s, extra, l, b.table);
    SpellsAtRestricted(s, extra, m, d);
    SpellsAtRestricted(s, extra, m + |d|, Extension);
    assert s[j - 1] == t[j - 1] && s[l - 1] == t[l - 1] && s[m - 1] == t[m - 1];
  }

  lemma SpellsAtRestricted(s: string, extra: string, i: int, w: string)
    requires SpellsAt(s + extra, i, w) && i + |w| <= |s|
    ensures SpellsAt(s, i, w)
  {
    forall k | 0 <= k < |w| ensures s[i + k] == w[k] {
      assert (s + extra)[i + k] == w[k];
    }
  }

  /** The tail after `p` stays in place when text is appended. */
  lemma TailAfterExtended(s: string, p: int, a: TableAddress, digits: string, extra: string)
    requires TailAfter(s, p, a, digits)
    ensures TailAfter(s + extra, p, a, digits)
  {
    var j := p + 1 + |a.db| + 1;
    var l := j + |a.schema| + 1;
    WordThenAtExtended(s, p + 1, a.db, '.', extra);
    WordThenAtExtended(s, j, a.schema, '.', extra);
    WordThenAtExtended(s, l, a.table, '-', extra);
    DigitsThenExtensionAtExtended(s, l + |a.table| + 1, digits, extra);
  }

  lemma WordThenAtExtended(s: string, i: int, w: string, sep: char, extra: string)
    requires WordThenAt(s, i, w, sep)
    ensures WordThenAt(s + extra, i, w, sep)
  {
    SpellsAtExtended(s, i, w, extra);
  }

  lemma DigitsThenExtensionAtExtended(s: string, m: int, digits: string, extra: string)
    requires DigitsThenExtensionAt(s, m, digits)
    ensures DigitsThenExtensionAt(s + extra, m, digits)
  {
    SpellsAtExtended(s, m, digits, extra);
    SpellsAtExtended(s, m + |digits|, Extension, extra);
  }

  lemma SpellsAtExtended(s: string, i: int, w: string, extra: string)
    requires SpellsAt(s, i, w)
    ensures SpellsAt(s + extra, i, w)
  {
    forall k | 0 <= k < |w| ensures (s + extra)[i + k] == w[k] {
      assert s[i + k] == w[k];
    }
  }

  /** A name with no `-` in it never matches. */
  lemma {:induction false} NoHyphenNoMatch(s: string, p: nat)
    requires 1 <= p && '-' !in s
    ensures SearchFrom(s, p) == None
    decreases |s| - p
  {
    if p < |s| && s[p - 1] != '\n' {
      assert s[p] in s;
      NoHyphenNoMatch(s, p + 1);
    }
  }

  /**
   * A name spelled `<prefix>-<db>.<schema>.<table>-<digits>.ndjson<rest>`
   * whose prefix holds neither `.` nor a newline is addressed to `a`. The
   * prefix may hold `-`, as the sink's `<timestamp>-<uniquer>-<topic>-...`
   * names do: no earlier `-` can start a match, because the word after it
   * would have to reach a `.` inside the prefix, or run across the `-`
   * before `<db>`.
   */
  lemma ParseAddressSpelled(prefix: string, a: TableAddress, digits: string, rest: string)
    requires |prefix| > 0 && '.' !in prefix && '\n' !in prefix && IsAddress(a) && IsDigits(digits)
    ensures ParseAddress(prefix + "-" + Tail(a, digits) + rest) == Some(a)
  {
    var s := prefix + "-" + Tail(a, digits) + rest;
    var p := |prefix|;
    SpellsAtMiddle(prefix + "-", Tail(a, digits), rest);
    SpelledTail(s, p, a, digits);
    assert s[..p] == prefix;
    assert s[p] == '-';
    forall k | 0 <= k < p ensures s[k] != '.' {
      assert s[k] == prefix[k] && prefix[k] in prefix;
    }
    NoMatchBeforeHyphen(s, p);
    ParseAddressComplete(s, p, a);
  }

  /**
   * When no `.` comes before the `-` at `p`, no shorter prefix matches: the
   * first group after an earlier `-` would have to end at a `.`.
   */
  lemma NoMatchBeforeHyphen(s: string, p: int)
    requires 0 <= p < |s| && s[p] == '-'
    requires forall k :: 0 <= k < p ==> s[k] != '.'
    ensures forall q, b :: 1 <= q < p ==> !MatchesAt(s, q, b)
  {
    forall q, b | 1 <= q < p ensures !MatchesAt(s, q, b) {
      if MatchesAt(s, q, b) {
        var d :| TailAfter(s, q, b, d);
        WordStopsBefore(s, q + 1, b.db, '.', p);
      }
    }
  }

  /**
   * A word that starts at or before a non-word character `s[p]` other than
   * its separator ends, with its separator, before `p`.
   */
  lemma WordStopsBefore(s: string, i: nat, w: string, sep: char, p: nat)
    requires WordThenAt(s, i, w, sep) && i <= p < |s| && !IsWordChar(s[p]) && s[p] != sep
    ensures i + |w| < p && s[i + |w|] == sep
  {
    WordEndsBy(s, i, w, p);
  }

  /** Where `Tail(a, digits)` is spelled after position `p`, the pattern's tail matches there. */
  lemma SpelledTail(s: string, p: nat, a: TableAddress, digits: string)
    requires IsAddress(a) && IsDigits(digits) && SpellsAt(s, p + 1, Tail(a, digits))
    ensures TailAfter(s, p, a, digits)
  {
    var r3 := digits + Extension;
    var r2 := a.table + ("-" + r3);
    var r1 := a.schema + ("." + r2);
    var j := p + 1 + |a.db| + 1;
    var l := j + |a.schema| + 1;
    var m := l + |a.table| + 1;
    SpelledWordThen(s, p + 1, a.db, '.', r1);
    SpelledWordThen(s, j, a.schema, '.', r2);
    SpelledWordThen(s, l, a.table, '-', r3);
    SpellsSplit(s, m, digits, Extension);
    StepsTail(s, p, a, digits);
  }

  /** Where `s` spells `w`, `sep` and `r`, `w` and `sep` are matched and `r` follows. */
  lemma SpelledWordThen(s: string, i: nat, w: string, sep: char, r: string)
    requires IsWord(w) && SpellsAt(s, i, w + ([sep] + r))
    ensures WordThenAt(s, i, w, sep)
    ensures SpellsAt(s, i + |w| + 1, r)
  {
    SpellsSplit(s, i, w, [sep] + r);
    SpellsSplit(s, i + |w|, [sep], r);
    assert s[i + |w| + 0] == [sep][0];
  }

  /** Where `s` spells `x + y`, it spells `x` and then `y`. */
  lemma SpellsSplit(s: string, i: nat, x: string, y: string)
    requires SpellsAt(s, i, x + y)
    ensures SpellsAt(s, i, x) && SpellsAt(s, i + |x|, y)
  {
    forall k | 0 <= k < |x| ensures s[i + k] == x[k] {
      assert (x + y)[k] == x[k];
    }
    forall k | 0 <= k < |y| ensures s[i + |x| + k] == y[k] {
      assert (x + y)[|x| + k] == y[k];
    }
  }

  /** `x + y + z` spells `y` after `x`. */
  lemma SpellsAtMiddle(x: string, y: string, z: string)
    ensures SpellsAt(x + y + z, |x|, y)
  {
    forall k | 0 <= k < |y| ensures (x + y + z)[|x| + k] == y[k] {
      assert (x + y + z)[|x| + k] == (x + y)[|x| + k];
    }
  }

  /** The changefeed's own file name parses as expected. */
  lemma ParseAddressExample()
    ensures ParseAddress("foo-mydb.public.orders-7.ndjson") == Some(TableAddress("mydb", "public", "orders"))
  {
    var a := ExampleSpelling("");
    assert "foo-mydb.public.orders-7.ndjson" + "" == "foo-mydb.public.orders-7.ndjson";
    ParseAddressSpelled("foo", a, "7", "");
  }

  /** The pattern has no end anchor, so text after `.ndjson` is ignored. */
  lemma ParseAddressTrailingExample()
    ensures ParseAddress("foo-mydb.public.orders-7.ndjson.tmp") == Some(TableAddress("mydb", "public", "orders"))
  {
    ParseAddressExample();
    TrailingName();
    ParseAddressExtended("foo-mydb.public.orders-7.ndjson", ".tmp");
  }

  lemma TrailingName()
    ensures "foo-mydb.public.orders-7.ndjson" + ".tmp" == "foo-mydb.public.orders-7.ndjson.tmp"
  {
  }

  /** The address of the examples, and how their file name spells it. */
  lemma ExampleSpelling(rest: string) returns (a: TableAddress)
    ensures a == TableAddress("mydb", "public", "orders") && IsAddress(a) && IsDigits("7")
    ensures "foo" + "-" + Tail(a, "7") + rest == "foo-mydb.public.orders-7.ndjson" + rest
  {
    a := TableAddress("mydb", "public", "orders");
    ExampleTail();
    ExampleName();
  }

  lemma ExampleTail()
    ensures Tail(TableAddress("mydb", "public", "orders"), "7") == "mydb.public.orders-7.ndjson"
  {
  }

  lemma ExampleName()
    ensures "foo" + "-" + "mydb.public.orders-7.ndjson" == "foo-mydb.public.orders-7.ndjson"
  {
    assert "foo" + "-" == "foo-";
  }

  /**
   * A name shaped as the cloud-storage sink writes it, with a topic that
   * is the full table name: the `-`s of the timestamp, uniquer and
   * schema id before it do not disturb the match.
   */
  lemma ParseAddressSinkExample()
    ensures ParseAddress("2020-5608-1-72-0000-mydb.public.orders-1.ndjson")
      == Some(TableAddress("mydb", "public", "orders"))
  {
    var a := SinkSpelling();
    ParseAddressSpelled("2020-5608-1-72-0000", a, "1", "");
  }

  /** How the sink-shaped name spells the address of the examples. */
  lemma SinkSpelling() returns (a: TableAddress)
    ensures a == TableAddress("mydb", "public", "orders") && IsAddress(a) && IsDigits("1")
    ensures '.' !in "2020-5608-1-72-0000" && '\n' !in "2020-5608-1-72-0000"
    ensures "2020-5608-1-72-0000" + "-" + Tail(a, "1") + "" == "2020-5608-1-72-0000-mydb.public.orders-1.ndjson"
  {
    a := TableAddress("mydb", "public", "orders");
    SinkTail();
    SinkPrefix();
    SinkName();
  }

  lemma SinkTail()
    ensures Tail(TableAddress("mydb", "public", "orders"), "1") == "mydb.public.orders-1.ndjson"
  {
  }

  lemma SinkPrefix()
    ensures forall k :: 0 <= k < |"2020-5608-1-72-0000"| ==> "2020-5608-1-72-0000"[k] in "0123456789-"
  {
  }

  lemma SinkName()
    ensures "2020-5608-1-72-0000" + "-" + "mydb.public.orders-1.ndjson" + ""
      == "2020-5608-1-72-0000-mydb.public.orders-1.ndjson"
  {
    assert "2020-5608-1-72-0000" + "-" == "2020-5608-1-72-0000-";
  }

  /** A name without the pattern's shape is not matched. */
  lemma ParseAddressGarbageExample()
    ensures ParseAddress("garbage.txt") == None
  {
    NoHyphenNoMatch("garbage.txt", 1);
  }
}
