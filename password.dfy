/**
 * The password generator: charset assembly, one mandatory character per
 * selected class, the two thrown errors, rejection-sampled random integers,
 * random insertion, and the integer strength score with its labels.
 *
 * `window.crypto.getRandomValues` is an oracle: a finite sequence of bytes
 * that each draw consumes from the front.  Running out of oracle bytes is an
 * outcome of the model only (`None` / `Exhausted`); the browser never runs out.
 */
module Password {
  import opened Wrappers
  import opened JsPrims

  /** One byte of a `Uint8Array`. */
  type Byte = x: nat | x < 256

  const UppercaseChars: string := "ABCDEFGHIJKLMNOPQRSTUVWXYZ"
  const LowercaseChars: string := "abcdefghijklmnopqrstuvwxyz"
  const NumberChars: string := "0123456789"
  const SpecialChars: string := "!@#$%^&*()_+~`|}{[]:;?><,./-="

  /** Text of the password field before anything has been generated. */
  const Placeholder: string := "生成されたパスワードがここに表示されます"
  const NoClassMessage: string := "少なくとも1つの文字タイプを選択してください"
  const GenerationFailedMessage: string := "パスワードの生成中にエラーが発生しました"

  /** `パスワードの長さは少なくとも${n}文字必要です`, for the one-digit n that can occur. */
  function TooShortMessage(n: nat): string
    requires n < 10
  {
    "パスワードの長さは少なくとも" + [('0' as int + n) as char] + "文字必要です"
  }

  // ---------------------------------------------------------------------
  // Rejection-sampled random integers (getSecureRandomInt)
  // ---------------------------------------------------------------------

  function Pow256(k: nat): (p: nat)
    ensures p >= 1
  {
    if k == 0 then 1 else 256 * Pow256(k - 1)
  }

  /**
   * `Math.ceil(Math.log2(range) / 8)` for the ranges that occur: the number of
   * bytes needed to cover `range` values.
   */
  function BytesNeeded(range: nat): (k: nat)
    requires 1 <= range <= 256
    ensures range <= Pow256(k)
    ensures k == 0 || Pow256(k - 1) < range
  {
    if range == 1 then 0 else 1
  }

  /** The largest multiple of `range` not above `256^bytesNeeded`. */
  function MaxAllowed(range: nat): nat
    requires 1 <= range <= 256
  {
    var maxValid := Pow256(BytesNeeded(range));
    maxValid - maxValid % range
  }

  lemma MaxAllowedIsMultiple(range: nat)
    requires 1 <= range <= 256
    ensures MaxAllowed(range) % range == 0
    ensures range <= MaxAllowed(range) <= Pow256(BytesNeeded(range))
  {
    var p := Pow256(BytesNeeded(range));
    var q := p / range;
    assert p == range * q + p % range;
    assert q >= 1;
    assert MaxAllowed(range) == range * q;
    MultipleMod(range, q);
  }

  lemma MultipleMod(range: nat, q: nat)
    requires range >= 1
    ensures (range * q) % range == 0
  {
    DivisionOf(range * q, range, q, 0);
  }

  /** The fold `randomValue = (randomValue << 8) + randomBytes[i]`, most significant byte first. */
  function BigEndian(bs: seq<Byte>): nat {
    if |bs| == 0 then 0 else BigEndian(bs[..|bs| - 1]) * 256 + bs[|bs| - 1]
  }

  lemma {:induction false} BigEndianBound(bs: seq<Byte>)
    ensures BigEndian(bs) < Pow256(|bs|)
  {
    if |bs| > 0 {
      BigEndianBound(bs[..|bs| - 1]);
    }
  }

  /** An accepted draw: the returned integer, the raw value it came from, and the unread oracle. */
  datatype Draw = Draw(value: int, raw: nat, rest: seq<Byte>)

  /** The do-while loop of getSecureRandomInt as a function of the oracle. */
  function SecureRandomInt(pool: seq<Byte>, min: int, max: int): Option<Draw>
    requires 1 <= max - min <= 256
    decreases |pool|
  {
    var range := max - min;
    var k := BytesNeeded(range);
    if |pool| < k then None
    else
      var raw := BigEndian(pool[..k]);
      if raw >= MaxAllowed(range) then
        MaxAllowedIsMultiple(range);
        assert k > 0;
        SecureRandomInt(pool[k..], min, max)
      else
        Some(Draw(min + raw % range, raw, pool[k..]))
  }

  /** A suffix of the oracle: draws only ever consume bytes from the front. */
  predicate IsSuffix(rest: seq<Byte>, pool: seq<Byte>) {
    |rest| <= |pool| && rest == pool[|pool| - |rest|..]
  }

  lemma {:induction false} SecureRandomIntInRange(pool: seq<Byte>, min: int, max: int)
    requires 1 <= max - min <= 256
    ensures var r := SecureRandomInt(pool, min, max);
      r.Some? ==>
        && min <= r.value.value < max
        && r.value.raw < MaxAllowed(max - min)
        && r.value.value == min + r.value.raw % (max - min)
        && IsSuffix(r.value.rest, pool)
    decreases |pool|
  {
    var range := max - min;
    var k := BytesNeeded(range);
    if |pool| >= k {
      var raw := BigEndian(pool[..k]);
      if raw >= MaxAllowed(range) {
        MaxAllowedIsMultiple(range);
        SecureRandomIntInRange(pool[k..], min, max);
        var r := SecureRandomInt(pool[k..], min, max);
        if r.Some? {
          var rest := r.value.rest;
          assert pool[k..][|pool[k..]| - |rest|..] == pool[|pool| - |rest|..];
        }
      }
    }
  }

  /** How many of the raw values 0 .. n-1 reduce to `t` modulo `range`. */
  function CountResidue(n: nat, range: nat, t: nat): nat
    requires range >= 1
  {
    if n == 0 then 0 else CountResidue(n - 1, range, t) + (if (n - 1) % range == t then 1 else 0)
  }

  lemma {:induction false} CountWithinBlock(base: nat, q: nat, j: nat, range: nat, t: nat)
    requires range >= 1 && t < range && j <= range && base == range * q
    requires CountResidue(base, range, t) == q
    ensures CountResidue(base + j, range, t) == q + (if t < j then 1 else 0)
  {
    if j > 0 {
      CountWithinBlock(base, q, j - 1, range, t);
      var x := base + (j - 1);
      DivisionOf(x, range, q, j - 1);
      assert CountResidue(x + 1, range, t) == CountResidue(x, range, t) + (if j - 1 == t then 1 else 0);
    }
  }

  /** Euclidean division is unique: `range * q + r` with `r < range` leaves remainder `r`. */
  lemma DivisionOf(x: nat, range: nat, q: nat, r: nat)
    requires range >= 1 && r < range && x == range * q + r
    ensures x % range == r
  {
    var q' := x / range;
    var r' := x % range;
    assert x == range * q' + r';
    if q' < q {
      MulGap(range, q', q);
    } else if q' > q {
      MulGap(range, q, q');
    }
  }

  lemma {:induction false} MulGap(range: nat, a: nat, b: nat)
    requires a < b
    ensures range * a + range <= range * b
    decreases b - a
  {
    assert range * (a + 1) == range * a + range;
    if a + 1 < b {
      MulGap(range, a + 1, b);
    }
  }

  lemma {:induction false} CountWholeBlocks(q: nat, range: nat, t: nat)
    requires range >= 1 && t < range
    ensures CountResidue(range * q, range, t) == q
  {
    if q > 0 {
      var base := range * (q - 1);
      CountWholeBlocks(q - 1, range, t);
      CountWithinBlock(base, q - 1, range, range, t);
      MulGap(range, q - 1, q);
      assert base + range == range * q;
    }
  }

  /**
   * No modulo bias: every result in [min, max) comes from the same number of
   * accepted raw values, namely `MaxAllowed(range) / range`.
   */
  lemma AcceptedRawValuesAreBalanced(range: nat, t: nat)
    requires 1 <= range <= 256 && t < range
    ensures CountResidue(MaxAllowed(range), range, t) == MaxAllowed(range) / range
  {
    MaxAllowedIsMultiple(range);
    var m := MaxAllowed(range);
    var q := m / range;
    assert m == range * q;
    CountWholeBlocks(q, range, t);
  }

  method GetSecureRandomInt(pool: seq<Byte>, min: int, max: int) returns (r: Option<Draw>)
    requires 1 <= max - min <= 256
    ensures r == SecureRandomInt(pool, min, max)
  {
    var range := max - min;
    var bytesNeeded := BytesNeeded(range);
    var maxValid := Pow256(bytesNeeded);
    var maxAllowed := maxValid - maxValid % range;
    MaxAllowedIsMultiple(range);
    var rest := pool;
    while true
      invariant SecureRandomInt(rest, min, max) == SecureRandomInt(pool, min, max)
      decreases |rest|
    {
      if |rest| < bytesNeeded {
        return None;
      }
      var randomBytes := rest[..bytesNeeded];
      rest := rest[bytesNeeded..];
      var randomValue := 0;
      for i := 0 to bytesNeeded
        invariant randomValue == BigEndian(randomBytes[..i])
      {
        assert randomBytes[..i + 1][..i] == randomBytes[..i];
        randomValue := randomValue * 256 + randomBytes[i];
      }
      assert randomBytes[..bytesNeeded] == randomBytes;
      if randomValue < maxAllowed {
        return Some(Draw(min + randomValue % range, randomValue, rest));
      }
    }
  }

  // ---------------------------------------------------------------------
  // getRandomChar and insertRandomly
  // ---------------------------------------------------------------------

  /** `charset[getSecureRandomInt(0, charset.length)]`, with the unread oracle. */
  function RandomChar(pool: seq<Byte>, charset: string): Option<(char, seq<Byte>)>
    requires 1 <= |charset| <= 256
  {
    match SecureRandomInt(pool, 0, |charset|)
    case None => None
    case Some(d) =>
      SecureRandomIntInRange(pool, 0, |charset|);
      Some((charset[d.value], d.rest))
  }

  lemma RandomCharFromCharset(pool: seq<Byte>, charset: string)
    requires 1 <= |charset| <= 256
    ensures RandomChar(pool, charset).Some? ==>
      && RandomChar(pool, charset).value.0 in charset
      && IsSuffix(RandomChar(pool, charset).value.1, pool)
  {
    SecureRandomIntInRange(pool, 0, |charset|);
  }

  method GetRandomChar(pool: seq<Byte>, charset: string) returns (r: Option<(char, seq<Byte>)>)
    requires 1 <= |charset| <= 256
    ensures r == RandomChar(pool, charset)
  {
    var d := GetSecureRandomInt(pool, 0, |charset|);
    match d
    case None => return None;
    case Some(draw) =>
      SecureRandomIntInRange(pool, 0, |charset|);
      return Some((charset[draw.value], draw.rest));
  }

  /** `result.splice(position, 0, c)`. */
  function Splice(result: seq<char>, position: nat, c: char): seq<char>
    requires position <= |result|
  {
    result[..position] + [c] + result[position..]
  }

  /** The loop of insertRandomly, from `result` with `chars` still to insert. */
  function Inserted(result: seq<char>, chars: seq<char>, pool: seq<Byte>): Option<(seq<char>, seq<Byte>)>
    requires |result| + |chars| <= 256
    decreases |chars|
  {
    if |chars| == 0 then Some((result, pool))
    else
      match SecureRandomInt(pool, 0, |result| + 1)
      case None => None
      case Some(d) =>
        SecureRandomIntInRange(pool, 0, |result| + 1);
        Inserted(Splice(result, d.value, chars[0]), chars[1..], d.rest)
  }

  /** `a` occurs in `b` in order, possibly with other characters between. */
  predicate IsSubsequence(a: seq<char>, b: seq<char>)
    decreases |b|
  {
    if |a| == 0 then true
    else if |b| == 0 then false
    else if a[0] == b[0] then IsSubsequence(a[1..], b[1..])
    else IsSubsequence(a, b[1..])
  }

  lemma {:induction false} SubsequenceOfSelf(a: seq<char>)
    ensures IsSubsequence(a, a)
    decreases |a|
  {
    if |a| > 0 {
      SubsequenceOfSelf(a[1..]);
    }
  }

  lemma {:induction false} SubsequenceOfSplice(a: seq<char>, b: seq<char>, p: nat, c: char)
    requires p <= |b| && IsSubsequence(a, b)
    ensures IsSubsequence(a, Splice(b, p, c))
    decreases |b|
  {
    var s := Splice(b, p, c);
    if |a| == 0 {
    } else if p == 0 {
      assert s[1..] == b;
      if a[0] == s[0] {
        SubsequenceSkip(a, b);
      }
    } else {
      assert s[0] == b[0];
      assert s[1..] == Splice(b[1..], p - 1, c);
      if a[0] == b[0] {
        SubsequenceOfSplice(a[1..], b[1..], p - 1, c);
      } else {
        SubsequenceOfSplice(a, b[1..], p - 1, c);
      }
    }
  }

  /** Dropping the head of `a` keeps it a subsequence. */
  lemma {:induction false} SubsequenceSkip(a: seq<char>, b: seq<char>)
    requires |a| > 0 && IsSubsequence(a, b)
    ensures IsSubsequence(a[1..], b)
    decreases |b|, |a|
  {
    if |a[1..]| > 0 {
      if a[0] == b[0] {
        SubsequenceSkip2(a[1..], b);
      } else {
        SubsequenceSkip(a, b[1..]);
        SubsequenceSkip2(a[1..], b);
      }
    }
  }

  /** A subsequence of a tail is a subsequence of the whole. */
  lemma {:induction false} SubsequenceSkip2(a: seq<char>, b: seq<char>)
    requires |b| > 0 && IsSubsequence(a, b[1..])
    ensures IsSubsequence(a, b)
    decreases |b|, |a|
  {
    if |a| > 0 && a[0] == b[0] {
      SubsequenceSkip(a, b[1..]);
    }
  }

  /**
   * insertRandomly returns `|str| + |chars|` characters, the multiset union of
   * both, with the characters of `str` in their original order.
   */
  lemma {:induction false} InsertedKeepsCharacters(result: seq<char>, chars: seq<char>, pool: seq<Byte>)
    requires |result| + |chars| <= 256
    ensures var r := Inserted(result, chars, pool);
      r.Some? ==>
        && |r.value.0| == |result| + |chars|
        && multiset(r.value.0) == multiset(result) + multiset(chars)
        && IsSubsequence(result, r.value.0)
        && IsSuffix(r.value.1, pool)
    decreases |chars|
  {
    if |chars| == 0 {
      SubsequenceOfSelf(result);
    } else {
      SecureRandomIntInRange(pool, 0, |result| + 1);
      var d := SecureRandomInt(pool, 0, |result| + 1);
      if d.Some? {
        var p := d.value.value;
        var next := Splice(result, p, chars[0]);
        InsertedKeepsCharacters(next, chars[1..], d.value.rest);
        var r := Inserted(next, chars[1..], d.value.rest);
        if r.Some? {
          SpliceKeeps(result, p, chars[0]);
          assert chars == [chars[0]] + chars[1..];
          SubsequenceTransitive(result, next, r.value.0);
          SuffixTransitive(r.value.1, d.value.rest, pool);
        }
      }
    }
  }

  /** One insertion adds exactly that character and keeps the others in order. */
  lemma SpliceKeeps(result: seq<char>, p: nat, c: char)
    requires p <= |result|
    ensures |Splice(result, p, c)| == |result| + 1
    ensures multiset(Splice(result, p, c)) == multiset(result) + multiset{c}
    ensures IsSubsequence(result, Splice(result, p, c))
  {
    assert result == result[..p] + result[p..];
    SubsequenceOfSelf(result);
    SubsequenceOfSplice(result, result, p, c);
  }

  /** What is left after two draws is left of the pool. */
  lemma SuffixTransitive(rest: seq<Byte>, middle: seq<Byte>, pool: seq<Byte>)
    requires IsSuffix(rest, middle) && IsSuffix(middle, pool)
    ensures IsSuffix(rest, pool)
  {
    assert middle[|middle| - |rest|..] == pool[|pool| - |rest|..];
  }

  lemma {:induction false} SubsequenceTransitive(a: seq<char>, b: seq<char>, c: seq<char>)
    requires IsSubsequence(a, b) && IsSubsequence(b, c)
    ensures IsSubsequence(a, c)
    decreases |c|
  {
    if |a| > 0 {
      assert |b| > 0;
      assert |c| > 0;
      if b[0] == c[0] {
        if a[0] == b[0] {
          SubsequenceTransitive(a[1..], b[1..], c[1..]);
        } else {
          SubsequenceTransitive(a, b[1..], c[1..]);
          SubsequenceSkip2(a, c);
        }
      } else {
        SubsequenceTransitive(a, b, c[1..]);
        SubsequenceSkip2(a, c);
      }
    }
  }

  method InsertRandomly(pool: seq<Byte>, str: string, chars: seq<char>) returns (r: Option<(string, seq<Byte>)>)
    requires |str| + |chars| <= 256
    ensures r == Inserted(str, chars, pool)
  {
    var result := str;
    var rest := pool;
    for i := 0 to |chars|
      invariant |result| == |str| + i
      invariant Inserted(result, chars[i..], rest) == Inserted(str, chars, pool)
    {
      var position := GetSecureRandomInt(rest, 0, |result| + 1);
      if position.None? {
        return None;
      }
      SecureRandomIntInRange(rest, 0, |result| + 1);
      assert chars[i..][1..] == chars[i + 1..];
      result := Splice(result, position.value.value, chars[i]);
      rest := position.value.rest;
    }
    return Some((result, rest));
  }

  // ---------------------------------------------------------------------
  // generateSecurePassword
  // ---------------------------------------------------------------------

  /** The four switches, in the parameter order of generateSecurePassword. */
  datatype Classes = Classes(uppercase: bool, lowercase: bool, numbers: bool, special: bool)

  predicate NoneSelected(c: Classes) {
    !c.uppercase && !c.lowercase && !c.numbers && !c.special
  }

  /** Number of selected classes: the length of `mustInclude`. */
  function SelectedCount(c: Classes): (n: nat)
    ensures n <= 4
    ensures n == 0 <==> NoneSelected(c)
  {
    (if c.uppercase then 1 else 0) + (if c.lowercase then 1 else 0)
      + (if c.numbers then 1 else 0) + (if c.special then 1 else 0)
  }

  function Pick(selected: bool, chars: string, later: seq<string>): seq<string> {
    if selected then [chars] + later else later
  }

  /** The sets among `u`, `l`, `n`, `sp` whose switch is on, in that order. */
  function SetsOf(c: Classes, u: string, l: string, n: string, sp: string): seq<string> {
    Pick(c.uppercase, u, Pick(c.lowercase, l, Pick(c.numbers, n, Pick(c.special, sp, []))))
  }

  /** The selected character sets, in the order the source tests them. */
  function SelectedSets(c: Classes): seq<string> {
    SetsOf(c, UppercaseChars, LowercaseChars, NumberChars, SpecialChars)
  }

  /** `charset`: the selected sets joined. */
  function Charset(c: Classes): string {
    Join(SelectedSets(c))
  }

  /** Every set can be drawn from with one random byte. */
  predicate Drawable(sets: seq<string>) {
    forall i :: 0 <= i < |sets| ==> 1 <= |sets[i]| <= 256
  }

  lemma JoinPick(selected: bool, chars: string, later: seq<string>)
    ensures Join(Pick(selected, chars, later)) == (if selected then chars else "") + Join(later)
  {
    if selected {
      assert Pick(selected, chars, later)[1..] == later;
    }
  }

  lemma DrawablePick(selected: bool, chars: string, later: seq<string>)
    requires 1 <= |chars| <= 256 && Drawable(later)
    ensures Drawable(Pick(selected, chars, later))
    ensures |Pick(selected, chars, later)| == (if selected then 1 else 0) + |later|
  {
  }

  lemma JoinSetsOf(c: Classes, u: string, l: string, n: string, sp: string)
    requires 1 <= |u| <= 256 && 1 <= |l| <= 256 && 1 <= |n| <= 256 && 1 <= |sp| <= 256
    ensures Join(SetsOf(c, u, l, n, sp)) ==
      (if c.uppercase then u else "") + ((if c.lowercase then l else "")
      + ((if c.numbers then n else "") + (if c.special then sp else "")))
    ensures |SetsOf(c, u, l, n, sp)| == SelectedCount(c)
    ensures Drawable(SetsOf(c, u, l, n, sp))
  {
    var l3 := Pick(c.special, sp, []);
    var l2 := Pick(c.numbers, n, l3);
    var l1 := Pick(c.lowercase, l, l2);
    JoinPick(c.special, sp, []);
    assert Join(l3) == (if c.special then sp else "");
    JoinPick(c.numbers, n, l3);
    JoinPick(c.lowercase, l, l2);
    JoinPick(c.uppercase, u, l1);
    DrawablePick(c.special, sp, []);
    DrawablePick(c.numbers, n, l3);
    DrawablePick(c.lowercase, l, l2);
    DrawablePick(c.uppercase, u, l1);
  }

  /**
   * The charset is the selected sets concatenated in the order upper, lower,
   * digits, special; `mustInclude` gets one draw per selected class.
   */
  lemma CharsetIsConcatenation(c: Classes)
    ensures Charset(c) ==
      (if c.uppercase then UppercaseChars else "") + ((if c.lowercase then LowercaseChars else "")
      + ((if c.numbers then NumberChars else "") + (if c.special then SpecialChars else "")))
    ensures |SelectedSets(c)| == SelectedCount(c)
    ensures Drawable(SelectedSets(c))
  {
    JoinSetsOf(c, UppercaseChars, LowercaseChars, NumberChars, SpecialChars);
  }

  /** Membership in a concatenation of four optional parts. */
  lemma ConcatenationMembership(c: Classes, u: string, l: string, n: string, sp: string, ch: char)
    ensures var s := (if c.uppercase then u else "") + ((if c.lowercase then l else "")
      + ((if c.numbers then n else "") + (if c.special then sp else "")));
      ch in s <==> (c.uppercase && ch in u) || (c.lowercase && ch in l) || (c.numbers && ch in n) || (c.special && ch in sp)
  {
  }

  /** Size of a concatenation of four optional parts. */
  lemma ConcatenationSize(c: Classes, u: string, l: string, n: string, sp: string)
    requires 1 <= |u| && 1 <= |l| && 1 <= |n| && 1 <= |sp|
    ensures var s := (if c.uppercase then u else "") + ((if c.lowercase then l else "")
      + ((if c.numbers then n else "") + (if c.special then sp else "")));
      && (s == "" <==> NoneSelected(c))
      && |s| <= |u| + |l| + |n| + |sp|
  {
    var s := (if c.uppercase then u else "") + ((if c.lowercase then l else "")
      + ((if c.numbers then n else "") + (if c.special then sp else "")));
    if !NoneSelected(c) {
      assert |s| > 0;
    }
  }

  /** The charset holds exactly the characters of the selected classes. */
  lemma CharsetMembership(c: Classes, ch: char)
    ensures ch in Charset(c) <==>
      || (c.uppercase && ch in UppercaseChars)
      || (c.lowercase && ch in LowercaseChars)
      || (c.numbers && ch in NumberChars)
      || (c.special && ch in SpecialChars)
  {
    CharsetIsConcatenation(c);
    ConcatenationMembership(c, UppercaseChars, LowercaseChars, NumberChars, SpecialChars, ch);
  }

  /** The charset is empty exactly when no class is selected, and has at most 91 characters. */
  lemma CharsetSize(c: Classes)
    ensures Charset(c) == "" <==> NoneSelected(c)
    ensures |Charset(c)| <= 91
  {
    CharsetIsConcatenation(c);
    ConcatenationSize(c, UppercaseChars, LowercaseChars, NumberChars, SpecialChars);
  }

  /** The `mustInclude` draws: one character from each set, in order. */
  function DrawEach(acc: seq<char>, sets: seq<string>, pool: seq<Byte>): Option<(seq<char>, seq<Byte>)>
    requires Drawable(sets)
    decreases |sets|
  {
    if |sets| == 0 then Some((acc, pool))
    else
      match RandomChar(pool, sets[0])
      case None => None
      case Some((ch, rest)) => DrawEach(acc + [ch], sets[1..], rest)
  }

  /** One `if (useX)` block of generateSecurePassword. */
  lemma DrawEachPick(acc: seq<char>, selected: bool, chars: string, later: seq<string>, pool: seq<Byte>)
    requires 1 <= |chars| <= 256 && Drawable(later)
    ensures Drawable(Pick(selected, chars, later))
    ensures DrawEach(acc, Pick(selected, chars, later), pool) ==
      if !selected then DrawEach(acc, later, pool)
      else if RandomChar(pool, chars).None? then None
      else DrawEach(acc + [RandomChar(pool, chars).value.0], later, RandomChar(pool, chars).value.1)
  {
    if selected {
      assert Pick(selected, chars, later)[1..] == later;
    }
  }

  lemma {:induction false} DrawEachShape(acc: seq<char>, sets: seq<string>, pool: seq<Byte>)
    requires Drawable(sets)
    ensures var r := DrawEach(acc, sets, pool);
      r.Some? ==>
        && |r.value.0| == |acc| + |sets|
        && r.value.0[..|acc|] == acc
        && (forall k :: 0 <= k < |sets| ==> r.value.0[|acc| + k] in sets[k])
    decreases |sets|
  {
    if |sets| > 0 {
      RandomCharFromCharset(pool, sets[0]);
      var d := RandomChar(pool, sets[0]);
      if d.Some? {
        var acc' := acc + [d.value.0];
        DrawEachShape(acc', sets[1..], d.value.1);
        var r := DrawEach(acc', sets[1..], d.value.1);
        if r.Some? {
          var m := r.value.0;
          assert m[..|acc|] == m[..|acc'|][..|acc|];
          forall k | 0 <= k < |sets|
            ensures m[|acc| + k] in sets[k]
          {
            if k > 0 {
              assert m[|acc'| + (k - 1)] in sets[1..][k - 1];
            } else {
              assert m[|acc|] == m[..|acc'|][|acc|];
            }
          }
        }
      }
    }
  }

  /** The loop `password += getRandomChar(charset)`, with `n` characters still to draw. */
  function Fill(acc: string, charset: string, n: nat, pool: seq<Byte>): Option<(string, seq<Byte>)>
    requires 1 <= |charset| <= 256
    decreases n
  {
    if n == 0 then Some((acc, pool))
    else
      match RandomChar(pool, charset)
      case None => None
      case Some((ch, rest)) => Fill(acc + [ch], charset, n - 1, rest)
  }

  lemma {:induction false} FillShape(acc: string, charset: string, n: nat, pool: seq<Byte>)
    requires 1 <= |charset| <= 256
    requires forall i :: 0 <= i < |acc| ==> acc[i] in charset
    ensures var r := Fill(acc, charset, n, pool);
      r.Some? ==>
        && |r.value.0| == |acc| + n
        && (forall i :: 0 <= i < |r.value.0| ==> r.value.0[i] in charset)
    decreases n
  {
    if n > 0 {
      RandomCharFromCharset(pool, charset);
      var d := RandomChar(pool, charset);
      if d.Some? {
        FillShape(acc + [d.value.0], charset, n - 1, d.value.1);
      }
    }
  }

  /** What generateSecurePassword returns or throws. */
  datatype Outcome = Generated(password: string, rest: seq<Byte>) | Failed(message: string) | Exhausted

  /** After the mandatory draws: the two checks, the filling loop and the insertion. */
  function Complete(length: nat, charset: string, mustInclude: seq<char>, rest: seq<Byte>): Outcome
    requires length <= 255 && |charset| <= 256 && |mustInclude| <= 4
  {
    if charset == "" then Failed(NoClassMessage)
    else if |mustInclude| > length then Failed(TooShortMessage(|mustInclude|))
    else
      match Fill("", charset, length - |mustInclude|, rest)
      case None => Exhausted
      case Some((password, rest')) =>
        FillShape("", charset, length - |mustInclude|, rest);
        match Inserted(password, mustInclude, rest')
        case None => Exhausted
        case Some((result, rest'')) => Generated(result, rest'')
  }

  /** generateSecurePassword as a function of its arguments and the oracle. */
  function SecurePassword(length: nat, c: Classes, pool: seq<Byte>): Outcome
    requires length <= 255
  {
    CharsetIsConcatenation(c);
    match DrawEach([], SelectedSets(c), pool)
    case None => Exhausted
    case Some((mustInclude, rest)) =>
      DrawEachShape([], SelectedSets(c), pool);
      Complete(length, Charset(c), mustInclude, rest)
  }

  /**
   * The errors of generateSecurePassword: no class selected, or more classes
   * than characters.  Neither happens otherwise.
   */
  lemma SecurePasswordErrors(length: nat, c: Classes, pool: seq<Byte>)
    requires length <= 255
    ensures NoneSelected(c) ==> SecurePassword(length, c, pool) == Failed(NoClassMessage)
    ensures !NoneSelected(c) && SelectedCount(c) > length ==>
      SecurePassword(length, c, pool) in {Failed(TooShortMessage(SelectedCount(c))), Exhausted}
    ensures SecurePassword(length, c, pool).Failed? ==>
      NoneSelected(c) || SelectedCount(c) > length
  {
    CharsetIsConcatenation(c);
    CharsetSize(c);
    DrawEachShape([], SelectedSets(c), pool);
  }

  /** The characters of a completed password: the filled ones plus the mandatory ones. */
  lemma CompleteShape(length: nat, charset: string, mustInclude: seq<char>, rest: seq<Byte>)
    requires length <= 255 && |charset| <= 256 && |mustInclude| <= 4
    requires forall k :: 0 <= k < |mustInclude| ==> mustInclude[k] in charset
    ensures var r := Complete(length, charset, mustInclude, rest);
      r.Generated? ==>
        && |r.password| == length
        && (forall i :: 0 <= i < |r.password| ==> r.password[i] in charset)
        && (forall k :: 0 <= k < |mustInclude| ==> mustInclude[k] in r.password)
  {
    var r := Complete(length, charset, mustInclude, rest);
    if r.Generated? {
      var n := length - |mustInclude|;
      FillShape("", charset, n, rest);
      var (password, rest') := Fill("", charset, n, rest).value;
      InsertedKeepsCharacters(password, mustInclude, rest');
      var p := r.password;
      assert multiset(p) == multiset(password) + multiset(mustInclude);
      forall i | 0 <= i < |p|
        ensures p[i] in charset
      {
        assert p[i] in multiset(p);
        if p[i] in multiset(password) {
          var j :| 0 <= j < |password| && password[j] == p[i];
        } else {
          assert p[i] in multiset(mustInclude);
          var k :| 0 <= k < |mustInclude| && mustInclude[k] == p[i];
        }
      }
      forall k | 0 <= k < |mustInclude|
        ensures mustInclude[k] in p
      {
        assert mustInclude[k] in multiset(mustInclude);
        assert mustInclude[k] in multiset(p);
      }
    }
  }

  /** The mandatory draw of a selected set lies in the charset. */
  lemma MandatoryInCharset(c: Classes, mustInclude: seq<char>, ch: char, k: nat)
    requires k < |SelectedSets(c)| && ch in SelectedSets(c)[k]
    ensures ch in Charset(c)
  {
    JoinContains(SelectedSets(c), ch);
  }

  lemma {:induction false} JoinContains(parts: seq<string>, ch: char)
    ensures ch in Join(parts) <==> exists i :: 0 <= i < |parts| && ch in parts[i]
  {
    if |parts| > 0 {
      JoinContains(parts[1..], ch);
      if ch in Join(parts[1..]) {
        var i :| 0 <= i < |parts[1..]| && ch in parts[1..][i];
        assert ch in parts[i + 1];
      }
      if exists i :: 0 <= i < |parts| && ch in parts[i] {
        var i :| 0 <= i < |parts| && ch in parts[i];
        if i > 0 {
          assert ch in parts[1..][i - 1];
        }
      }
    }
  }

  /**
   * A generated password has exactly `length` characters, all from the
   * charset, and at least one from each selected class.
   */
  lemma SecurePasswordShape(length: nat, c: Classes, pool: seq<Byte>)
    requires length <= 255
    ensures var r := SecurePassword(length, c, pool);
      r.Generated? ==>
        && |r.password| == length
        && (forall i :: 0 <= i < |r.password| ==> r.password[i] in Charset(c))
        && forall s :: s in SelectedSets(c) ==> exists ch :: ch in r.password && ch in s
  {
    var r := SecurePassword(length, c, pool);
    if r.Generated? {
      var sets := SelectedSets(c);
      CharsetIsConcatenation(c);
      CharsetSize(c);
      DrawEachShape([], sets, pool);
      var (mustInclude, rest) := DrawEach([], sets, pool).value;
      forall k | 0 <= k < |mustInclude|
        ensures mustInclude[k] in Charset(c)
      {
        MandatoryInCharset(c, mustInclude, mustInclude[k], k);
      }
      CompleteShape(length, Charset(c), mustInclude, rest);
      forall s | s in sets
        ensures exists ch :: ch in r.password && ch in s
      {
        var k :| 0 <= k < |sets| && sets[k] == s;
        assert mustInclude[k] in r.password;
      }
    }
  }

  /** The selected classes, each of which the generated password draws from. */
  lemma SelectedSetsOfClasses(c: Classes)
    ensures c.uppercase <==> UppercaseChars in SelectedSets(c)
    ensures c.lowercase <==> LowercaseChars in SelectedSets(c)
    ensures c.numbers <==> NumberChars in SelectedSets(c)
    ensures c.special <==> SpecialChars in SelectedSets(c)
  {
    assert UppercaseChars[0] == 'A' && LowercaseChars[0] == 'a';
    assert NumberChars[0] == '0' && SpecialChars[0] == '!';
  }

  lemma AppendAssoc(a: string, b: string, c: string)
    ensures (a + b) + c == a + (b + c)
  {
  }

  /**
   * One `if (useX) { charset += xChars; mustInclude.push(getRandomChar(xChars)); }`
   * block: `later` are the sets still to be checked after this one, `all` the
   * final charset and `target` the final mandatory draws.
   */
  method DrawClass(pool: seq<Byte>, selected: bool, chars: string, ghost later: seq<string>,
                   charset: string, mustInclude: seq<char>,
                   ghost all: string, ghost target: Option<(seq<char>, seq<Byte>)>)
    returns (charset': string, r: Option<(seq<char>, seq<Byte>)>)
    requires 1 <= |chars| <= 256 && Drawable(later)
    requires charset + Join(Pick(selected, chars, later)) == all
    requires Drawable(Pick(selected, chars, later))
    requires target == DrawEach(mustInclude, Pick(selected, chars, later), pool)
    ensures charset' + Join(later) == all
    ensures target == if r.None? then None else DrawEach(r.value.0, later, r.value.1)
  {
    DrawEachPick(mustInclude, selected, chars, later, pool);
    JoinPick(selected, chars, later);
    if !selected {
      assert "" + Join(later) == Join(later);
      return charset, Some((mustInclude, pool));
    }
    AppendAssoc(charset, chars, Join(later));
    charset' := charset + chars;
    var d := GetRandomChar(pool, chars);
    if d.None? {
      return charset', None;
    }
    return charset', Some((mustInclude + [d.value.0], d.value.1));
  }

  /**
   * The first half of generateSecurePassword: the charset and the mandatory
   * draws, for the sets `u`, `l`, `n`, `sp` checked in that order.
   */
  method DrawMandatory(pool: seq<Byte>, c: Classes, u: string, l: string, n: string, sp: string)
    returns (charset: string, r: Option<(seq<char>, seq<Byte>)>)
    requires 1 <= |u| <= 256 && 1 <= |l| <= 256 && 1 <= |n| <= 256 && 1 <= |sp| <= 256
    ensures Drawable(SetsOf(c, u, l, n, sp)) && r == DrawEach([], SetsOf(c, u, l, n, sp), pool)
    ensures r.Some? ==> charset == Join(SetsOf(c, u, l, n, sp))
  {
    var l3 := Pick(c.special, sp, []);
    var l2 := Pick(c.numbers, n, l3);
    var l1 := Pick(c.lowercase, l, l2);
    DrawablePick(c.special, sp, []);
    DrawablePick(c.numbers, n, l3);
    DrawablePick(c.lowercase, l, l2);
    DrawablePick(c.uppercase, u, l1);
    ghost var l0 := Pick(c.uppercase, u, l1);
    assert SetsOf(c, u, l, n, sp) == l0;
    ghost var target := DrawEach([], l0, pool);
    ghost var all := Join(l0);
    assert "" + all == all;
    charset, r := DrawClass(pool, c.uppercase, u, l1, "", [], all, target);
    if r.None? {
      return;
    }
    charset, r := DrawClass(r.value.1, c.lowercase, l, l2, charset, r.value.0, all, target);
    if r.None? {
      return;
    }
    charset, r := DrawClass(r.value.1, c.numbers, n, l3, charset, r.value.0, all, target);
    if r.None? {
      return;
    }
    charset, r := DrawClass(r.value.1, c.special, sp, [], charset, r.value.0, all, target);
    assert Join([]) == "" && charset + "" == charset;
  }

  method GenerateSecurePassword(pool: seq<Byte>, length: nat, c: Classes) returns (r: Outcome)
    requires length <= 255
    ensures r == SecurePassword(length, c, pool)
  {
    var charset, drawn := DrawMandatory(pool, c, UppercaseChars, LowercaseChars, NumberChars, SpecialChars);
    if drawn.None? {
      return Exhausted;
    }
    DrawEachShape([], SelectedSets(c), pool);
    CharsetSize(c);
    r := CheckAndFill(drawn.value.1, length, charset, drawn.value.0);
  }

  /** The second half of generateSecurePassword: the two checks, the filling loop and the insertion. */
  method CheckAndFill(pool: seq<Byte>, length: nat, charset: string, mustInclude: seq<char>) returns (r: Outcome)
    requires length <= 255 && |charset| <= 256 && |mustInclude| <= 4
    ensures r == Complete(length, charset, mustInclude, pool)
  {
    if charset == "" {
      return Failed(NoClassMessage);
    }
    if |mustInclude| > length {
      return Failed(TooShortMessage(|mustInclude|));
    }
    var password := "";
    var rest := pool;
    var remainingLength := length - |mustInclude|;
    for i := 0 to remainingLength
      invariant |password| == i
      invariant Fill(password, charset, remainingLength - i, rest) == Fill("", charset, remainingLength, pool)
    {
      var d := GetRandomChar(rest, charset);
      if d.None? {
        return Exhausted;
      }
      password := password + [d.value.0];
      rest := d.value.1;
    }
    FillShape("", charset, remainingLength, pool);
    var inserted := InsertRandomly(rest, password, mustInclude);
    if inserted.None? {
      return Exhausted;
    }
    return Generated(inserted.value.0, inserted.value.1);
  }

  // ---------------------------------------------------------------------
  // evaluatePasswordStrength
  // ---------------------------------------------------------------------

  predicate IsUpper(ch: char) { 'A' <= ch <= 'Z' }
  predicate IsLower(ch: char) { 'a' <= ch <= 'z' }
  predicate IsDigit(ch: char) { '0' <= ch <= '9' }

  /** `/[A-Z]/.test(p)`, `/[a-z]/.test(p)`, `/[0-9]/.test(p)` and `/[^A-Za-z0-9]/.test(p)`. */
  predicate HasUpper(p: string) { exists i :: 0 <= i < |p| && IsUpper(p[i]) }
  predicate HasLower(p: string) { exists i :: 0 <= i < |p| && IsLower(p[i]) }
  predicate HasDigit(p: string) { exists i :: 0 <= i < |p| && IsDigit(p[i]) }
  predicate HasOther(p: string) { exists i :: 0 <= i < |p| && !IsUpper(p[i]) && !IsLower(p[i]) && !IsDigit(p[i]) }

  /** `new Set(p.split('')).size`. */
  function UniqueCount(p: string): nat {
    |set i | 0 <= i < |p| :: p[i]|
  }

  /**
   * `uniqueChars / p.length > 0.7`.  For a non-empty p the quotient exceeds the
   * double nearest 0.7 exactly when 10 * unique > 7 * length.
   */
  predicate Diverse(p: string) {
    10 * UniqueCount(p) > 7 * |p|
  }

  function Point(b: bool): nat { if b then 1 else 0 }

  /** The score: three length points, four character-class points, one diversity point. */
  function Score(p: string): nat {
    Point(|p| >= 8) + Point(|p| >= 12) + Point(|p| >= 16)
      + Point(HasUpper(p)) + Point(HasLower(p)) + Point(HasDigit(p)) + Point(HasOther(p))
      + Point(Diverse(p))
  }

  /** The scoring part of evaluatePasswordStrength, one point at a time. */
  method PasswordScore(password: string) returns (score: nat)
    ensures score == Score(password)
  {
    score := 0;
    if |password| >= 8 { score := score + 1; }
    if |password| >= 12 { score := score + 1; }
    if |password| >= 16 { score := score + 1; }
    assert score == Point(|password| >= 8) + Point(|password| >= 12) + Point(|password| >= 16);
    if HasUpper(password) { score := score + 1; }
    if HasLower(password) { score := score + 1; }
    if HasDigit(password) { score := score + 1; }
    if HasOther(password) { score := score + 1; }
    assert score == Point(|password| >= 8) + Point(|password| >= 12) + Point(|password| >= 16)
      + Point(HasUpper(password)) + Point(HasLower(password)) + Point(HasDigit(password)) + Point(HasOther(password));
    var uniqueChars := UniqueCount(password);
    if 10 * uniqueChars > 7 * |password| { score := score + 1; }
  }

  datatype Strength = Strength(text: string, color: string)

  const Weak := Strength("弱い", "bg-red-500")
  const Normal := Strength("普通", "bg-yellow-500")
  const Strong := Strength("強い", "bg-green-500")
  const VeryStrong := Strength("非常に強い", "bg-blue-500")
  const Unrated := Strength("", "bg-gray-500")

  /** The score-to-label branching. */
  function StrengthOf(score: nat): Strength {
    if score < 3 then Weak
    else if score < 5 then Normal
    else if score < 7 then Strong
    else VeryStrong
  }

  /** Position of a strength among the four labels, weakest first. */
  function Rank(s: Strength): nat {
    if s == Weak then 0 else if s == Normal then 1 else if s == Strong then 2 else 3
  }

  /** What evaluatePasswordStrength writes into the two state fields. */
  function Assess(p: string): Strength {
    if p == "" || p == Placeholder then Unrated else StrengthOf(Score(p))
  }

  /** A higher score never gives a weaker label, and the labels change exactly at 3, 5 and 7. */
  lemma StrengthIsMonotone(s1: nat, s2: nat)
    requires s1 <= s2
    ensures Rank(StrengthOf(s1)) <= Rank(StrengthOf(s2))
    ensures Rank(StrengthOf(s1)) == (if s1 < 3 then 0 else if s1 < 5 then 1 else if s1 < 7 then 2 else 3)
  {
  }

  /**
   * An empty or placeholder password gets no label; any other gets one of the
   * four labels, from a score in 0..8.
   */
  lemma AssessLabels(p: string)
    ensures Assess(p).text == "" <==> p == "" || p == Placeholder
    ensures Assess(p) != Unrated ==> Score(p) <= 8 && Assess(p) in {Weak, Normal, Strong, VeryStrong}
  {
  }

  /** A password of at least 8 characters with all four classes and no other gets at least the third label. */
  lemma AllClassesAreStrong(p: string)
    requires |p| >= 8 && HasUpper(p) && HasLower(p) && HasDigit(p) && HasOther(p)
    requires p != Placeholder
    ensures Assess(p) in {Strong, VeryStrong}
    ensures |p| >= 16 && Diverse(p) ==> Assess(p) == VeryStrong
  {
  }

  /** Characters of the four sets, classified as the strength regexes see them. */
  lemma ClassesOfSets(ch: char)
    ensures ch in UppercaseChars ==> IsUpper(ch)
    ensures ch in LowercaseChars ==> IsLower(ch)
    ensures ch in NumberChars ==> IsDigit(ch)
    ensures ch in SpecialChars ==> !IsUpper(ch) && !IsLower(ch) && !IsDigit(ch)
  {
    UppercaseRange();
    LowercaseRange();
    NumberRange();
    SpecialRange();
  }

  lemma UppercaseRange()
    ensures forall i :: 0 <= i < |UppercaseChars| ==> IsUpper(UppercaseChars[i])
  {
    forall i | 0 <= i < |UppercaseChars| ensures IsUpper(UppercaseChars[i]) {
      assert UppercaseChars[i] == ('A' as int + i) as char;
    }
  }

  lemma LowercaseRange()
    ensures forall i :: 0 <= i < |LowercaseChars| ==> IsLower(LowercaseChars[i])
  {
    forall i | 0 <= i < |LowercaseChars| ensures IsLower(LowercaseChars[i]) {
      assert LowercaseChars[i] == ('a' as int + i) as char;
    }
  }

  lemma NumberRange()
    ensures forall i :: 0 <= i < |NumberChars| ==> IsDigit(NumberChars[i])
  {
    forall i | 0 <= i < |NumberChars| ensures IsDigit(NumberChars[i]) {
      assert NumberChars[i] == ('0' as int + i) as char;
    }
  }

  lemma SpecialRange()
    ensures forall i :: 0 <= i < |SpecialChars| ==>
      !IsUpper(SpecialChars[i]) && !IsLower(SpecialChars[i]) && !IsDigit(SpecialChars[i])
      && SpecialChars[i] < 128 as char
  {
  }

  /** Every charset character is ASCII, so no generated password is the placeholder text. */
  lemma CharsetIsAscii(c: Classes, ch: char)
    requires ch in Charset(c)
    ensures ch < 128 as char
  {
    CharsetMembership(c, ch);
    ClassesOfSets(ch);
    SpecialRange();
  }

  /** A text holding a character of each of the four sets passes the four class tests. */
  lemma ClassCoverage(p: string)
    requires exists u :: u in p && u in UppercaseChars
    requires exists l :: l in p && l in LowercaseChars
    requires exists d :: d in p && d in NumberChars
    requires exists o :: o in p && o in SpecialChars
    ensures HasUpper(p) && HasLower(p) && HasDigit(p) && HasOther(p)
  {
    var u :| u in p && u in UppercaseChars;
    var l :| l in p && l in LowercaseChars;
    var d :| d in p && d in NumberChars;
    var o :| o in p && o in SpecialChars;
    ClassesOfSets(u);
    ClassesOfSets(l);
    ClassesOfSets(d);
    ClassesOfSets(o);
  }

  /**
   * A password generated with all four classes and at least 8 characters is
   * rated 強い or 非常に強い.
   */
  lemma GeneratedPasswordIsStrong(length: nat, pool: seq<Byte>)
    requires 8 <= length <= 255
    ensures var r := SecurePassword(length, Classes(true, true, true, true), pool);
      r.Generated? ==> Assess(r.password) in {Strong, VeryStrong}
  {
    var c := Classes(true, true, true, true);
    var r := SecurePassword(length, c, pool);
    if r.Generated? {
      var p := r.password;
      SecurePasswordShape(length, c, pool);
      SelectedSetsOfClasses(c);
      ClassCoverage(p);
      assert p != Placeholder by {
        CharsetIsAscii(c, p[0]);
        assert Placeholder[0] == '生';
      }
      AllClassesAreStrong(p);
    }
  }

  // ---------------------------------------------------------------------
  // The component state
  // ---------------------------------------------------------------------

  /** The React state of the password generator. */
  class GeneratorState {
    var passwordLength: nat
    var includeSpecialChars: bool
    var includeUppercase: bool
    var includeLowercase: bool
    var includeNumbers: bool
    var generatedPassword: string
    var error: Option<string>
    var passwordStrength: string
    var strengthColor: string

    /** The slider and the number input keep the length in 8..64. */
    predicate Valid()
      reads this
    {
      8 <= passwordLength <= 64
    }

    function Selected(): Classes
      reads this
    {
      Classes(includeUppercase, includeLowercase, includeNumbers, includeSpecialChars)
    }

    constructor ()
      ensures Valid()
      ensures passwordLength == 12
      ensures Selected() == Classes(true, true, true, true)
      ensures generatedPassword == "" && error == None
      ensures passwordStrength == "" && strengthColor == "bg-gray-500"
    {
      passwordLength := 12;
      includeSpecialChars := true;
      includeUppercase := true;
      includeLowercase := true;
      includeNumbers := true;
      generatedPassword := "";
      error := None;
      passwordStrength := "";
      strengthColor := "bg-gray-500";
    }

    /** The number input: a parsed value outside 8..64 is ignored. */
    method SetPasswordLength(value: int)
      modifies this
      ensures passwordLength == if 8 <= value <= 64 then value else old(passwordLength)
      ensures Valid() == (old(Valid()) || 8 <= value <= 64)
      ensures Selected() == old(Selected()) && generatedPassword == old(generatedPassword)
      ensures error == old(error) && passwordStrength == old(passwordStrength) && strengthColor == old(strengthColor)
    {
      if 8 <= value <= 64 {
        passwordLength := value;
      }
    }

    /** Scores `password` and writes the label and colour. */
    method EvaluatePasswordStrength(password: string)
      modifies this
      ensures Strength(passwordStrength, strengthColor) == Assess(password)
      ensures passwordLength == old(passwordLength) && Selected() == old(Selected())
      ensures generatedPassword == old(generatedPassword) && error == old(error)
    {
      if password == "" || password == Placeholder {
        passwordStrength := "";
        strengthColor := "bg-gray-500";
        return;
      }
      var score := PasswordScore(password);
      var strength := StrengthOf(score);
      passwordStrength := strength.text;
      strengthColor := strength.color;
    }

    /**
     * The generate button: clears the error, refuses an empty selection, and
     * otherwise stores and rates a new password or reports a thrown error.
     */
    method HandleGeneratePassword(pool: seq<Byte>) returns (rest: seq<Byte>)
      requires Valid()
      modifies this
      ensures Valid() && passwordLength == old(passwordLength) && Selected() == old(Selected())
      ensures NoneSelected(Selected()) ==>
        && error == Some(NoClassMessage)
        && generatedPassword == old(generatedPassword)
        && passwordStrength == old(passwordStrength) && strengthColor == old(strengthColor)
        && rest == pool
      ensures !NoneSelected(Selected()) ==>
        match SecurePassword(passwordLength, Selected(), pool)
        case Generated(p, rest') =>
          generatedPassword == p && error == None && Strength(passwordStrength, strengthColor) == Assess(p)
          && rest == rest'
        case Failed(_) =>
          error == Some(GenerationFailedMessage) && generatedPassword == old(generatedPassword)
          && passwordStrength == old(passwordStrength) && strengthColor == old(strengthColor)
          && rest == pool
        case Exhausted =>
          error == None && generatedPassword == old(generatedPassword)
          && passwordStrength == old(passwordStrength) && strengthColor == old(strengthColor)
          && rest == pool
    {
      error := None;
      rest := pool;
      if !includeSpecialChars && !includeUppercase && !includeLowercase && !includeNumbers {
        error := Some(NoClassMessage);
        return;
      }
      var r := GenerateSecurePassword(pool, passwordLength, Selected());
      match r
      case Generated(password, rest') =>
        generatedPassword := password;
        EvaluatePasswordStrength(password);
        rest := rest';
      case Failed(_) =>
        error := Some(GenerationFailedMessage);
      case Exhausted =>
    }
  }

  /**
   * In a valid state the generator never throws once a class is selected, so
   * the handler's catch branch is never taken.
   */
  lemma HandlerNeverCatches(length: nat, c: Classes, pool: seq<Byte>)
    requires 8 <= length <= 64 && !NoneSelected(c)
    ensures !SecurePassword(length, c, pool).Failed?
  {
    SecurePasswordErrors(length, c, pool);
  }
}
