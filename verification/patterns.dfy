/** The regular expressions the account and profile handlers validate input with.

    Each pattern is given twice: as a ghost predicate that follows the regular expression's
    matching semantics (`re.match` anchors at the start; `$` matches at the end of the text or
    just before one final newline; `.` matches anything but a newline), and as a direct check
    over the characters that the handlers call. A proof connects the two. */
module Patterns {

  /** The character classes that occur in the patterns. */
  datatype CharClass =
    | Digit         // `\d`, taken as the ASCII digits
    | Lower         // `[a-z]`
    | Upper         // `[A-Z]`
    | Letter        // `[a-zA-Z]`
    | NicknameChar  // `[가-힣a-zA-Z0-9]`: Hangul syllables U+AC00..U+D7A3, ASCII letters and digits
    | LocalChar     // `[a-zA-Z0-9+-_.]`: `+-_` is the range U+002B..U+005F, which contains `@`
    | DomainChar    // `[a-zA-Z0-9-]`
    | SuffixChar    // `[a-zA-Z0-9-.]`

  predicate IsAsciiLetter(c: char) {
    'a' <= c <= 'z' || 'A' <= c <= 'Z'
  }

  predicate IsAsciiDigit(c: char) {
    '0' <= c <= '9'
  }

  predicate InClass(cls: CharClass, c: char) {
    match cls
    case Digit => IsAsciiDigit(c)
    case Lower => 'a' <= c <= 'z'
    case Upper => 'A' <= c <= 'Z'
    case Letter => IsAsciiLetter(c)
    case NicknameChar => '\U{AC00}' <= c <= '\U{D7A3}' || IsAsciiLetter(c) || IsAsciiDigit(c)
    case LocalChar => IsAsciiLetter(c) || IsAsciiDigit(c) || '+' <= c <= '_' || c == '.'
    case DomainChar => IsAsciiLetter(c) || IsAsciiDigit(c) || c == '-'
    case SuffixChar => IsAsciiLetter(c) || IsAsciiDigit(c) || c == '-' || c == '.'
  }

  /** Every character of `s[lo..hi]` is in `cls`. */
  predicate AllIn(cls: CharClass, s: string, lo: nat, hi: nat)
    requires lo <= hi <= |s|
  {
    forall k :: lo <= k < hi ==> InClass(cls, s[k])
  }

  /** Where `$` can match after the first `n` characters have been consumed. */
  predicate EndsAt(s: string, n: nat) {
    n == |s| || (n + 1 == |s| && s[n] == '\n')
  }

  /** The text `$` is compared against: `s` without one final newline. */
  function DropFinalNewline(s: string): (core: string)
    ensures core == s || (s == core + "\n")
    ensures EndsAt(s, |core|)
  {
    if |s| > 0 && s[|s| - 1] == '\n' then s[..|s| - 1] else s
  }

  // ---------------------------------------------------------------------------------------
  // NICKNAME_PATTERN = ^[가-힣a-zA-Z0-9]{4,10}$

  /** The regular expression's semantics: 4 to 10 class characters, then the end. */
  ghost predicate NicknameMatches(s: string) {
    exists n: nat :: 4 <= n <= 10 && n <= |s| && AllIn(NicknameChar, s, 0, n) && EndsAt(s, n)
  }

  /** The nickname check: 4 to 10 Hangul syllables, ASCII letters or digits, optionally followed
      by one newline that `$` lets through. */
  function NicknameOk(s: string): (ok: bool)
    ensures ok <==> NicknameMatches(s)
  {
    var core := DropFinalNewline(s);
    var ok := 4 <= |core| <= 10 && AllIn(NicknameChar, core, 0, |core|);
    assert ok ==> AllIn(NicknameChar, s, 0, |core|);
    assert NicknameMatches(s) ==> ok by {
      if NicknameMatches(s) {
        var n: nat :| 4 <= n <= 10 && n <= |s| && AllIn(NicknameChar, s, 0, n) && EndsAt(s, n);
        assert n == |core| by {
          if n + 1 == |s| && s[n] == '\n' {
          } else {
            assert n == |s| && n > 0 && InClass(NicknameChar, s[n - 1]);
          }
        }
      }
    }
    ok
  }

  // ---------------------------------------------------------------------------------------
  // PASSWORD_PATTERN = ^(?=.*\d)(?=.*[a-z])(?=.*[A-Z])(?=.*[a-zA-Z]).{8,32}$

  /** `(?=.*X)` at the start: some character of class X occurs before the first newline. */
  ghost predicate Lookahead(s: string, cls: CharClass) {
    exists k :: 0 <= k < |s| && InClass(cls, s[k]) && '\n' !in s[..k]
  }

  /** The regular expression's semantics. */
  ghost predicate PasswordMatches(s: string) {
    && Lookahead(s, Digit)
    && Lookahead(s, Lower)
    && Lookahead(s, Upper)
    && Lookahead(s, Letter)
    && exists n: nat :: 8 <= n <= 32 && n <= |s| && '\n' !in s[..n] && EndsAt(s, n)
  }

  /** Some character of `s` is in `cls`. */
  predicate Contains(s: string, cls: CharClass) {
    exists k :: 0 <= k < |s| && InClass(cls, s[k])
  }

  /** The password check: 8 to 32 characters other than newline, optionally followed by one
      newline, with at least one digit, one lower-case and one upper-case ASCII letter. */
  function PasswordOk(s: string): (ok: bool)
    ensures ok <==> PasswordMatches(s)
  {
    var core := DropFinalNewline(s);
    var ok := && 8 <= |core| <= 32 && '\n' !in core
              && Contains(core, Digit) && Contains(core, Lower) && Contains(core, Upper);
    PasswordOkSound(s);
    PasswordOkComplete(s);
    ok
  }

  lemma PasswordOkSound(s: string)
    ensures var core := DropFinalNewline(s);
            (8 <= |core| <= 32 && '\n' !in core
             && Contains(core, Digit) && Contains(core, Lower) && Contains(core, Upper))
            ==> PasswordMatches(s)
  {
    var core := DropFinalNewline(s);
    if 8 <= |core| <= 32 && '\n' !in core
       && Contains(core, Digit) && Contains(core, Lower) && Contains(core, Upper) {
      assert s[..|core|] == core;
      forall cls | cls in [Digit, Lower, Upper]
        ensures Lookahead(s, cls)
      {
        var k :| 0 <= k < |core| && InClass(cls, core[k]);
        assert s[..k] == core[..k];
        assert InClass(cls, s[k]);
      }
      assert Lookahead(s, Digit) && Lookahead(s, Upper) && Lookahead(s, Lower);
      var k :| 0 <= k < |core| && InClass(Upper, core[k]);
      assert s[..k] == core[..k] && InClass(Letter, s[k]);
      assert Lookahead(s, Letter);
      assert EndsAt(s, |core|);
    }
  }

  lemma PasswordOkComplete(s: string)
    ensures PasswordMatches(s) ==>
            var core := DropFinalNewline(s);
            8 <= |core| <= 32 && '\n' !in core
            && Contains(core, Digit) && Contains(core, Lower) && Contains(core, Upper)
  {
    if PasswordMatches(s) {
      PasswordCore(s);
    }
  }

  lemma PasswordCore(s: string)
    requires PasswordMatches(s)
    ensures var core := DropFinalNewline(s);
            8 <= |core| <= 32 && '\n' !in core
            && Contains(core, Digit) && Contains(core, Lower) && Contains(core, Upper)
  {
    var core := DropFinalNewline(s);
    var n: nat :| 8 <= n <= 32 && n <= |s| && '\n' !in s[..n] && EndsAt(s, n);
    assert n == |core| by {
      if n + 1 == |s| && s[n] == '\n' {
      } else {
        assert s[n - 1] in s[..n];
      }
    }
    assert core == s[..n];
    forall cls | cls in [Digit, Lower, Upper]
      ensures Contains(core, cls)
    {
      var k :| 0 <= k < |s| && InClass(cls, s[k]) && '\n' !in s[..k];
      assert k < n;
      assert core[k] == s[k];
    }
  }

  // ---------------------------------------------------------------------------------------
  // EMAIL_PATTERN = ^[a-zA-Z0-9+-_.]+@[a-zA-Z0-9-]+\.[a-zA-Z0-9-.]+$

  /** One way the pattern can match: local part `s[..at]`, `@` at `at`, label `s[at+1..dot]`,
      `.` at `dot`, suffix `s[dot+1..end]`, then `$`. */
  ghost predicate EmailSplitAt(s: string, at: nat, dot: nat, end: nat) {
    && 0 < at && at + 1 < dot && dot + 1 < end && end <= |s|
    && AllIn(LocalChar, s, 0, at)
    && s[at] == '@'
    && AllIn(DomainChar, s, at + 1, dot)
    && s[dot] == '.'
    && AllIn(SuffixChar, s, dot + 1, end)
    && EndsAt(s, end)
  }

  /** The regular expression's semantics: some choice of `@`, `.` and end makes it match.
      Because the local-part class contains `@`, more than one `@` can occur. */
  ghost predicate EmailMatches(s: string) {
    exists at: nat, dot: nat, end: nat :: EmailSplitAt(s, at, dot, end)
  }

  /** The position of the last `c` in `s`. */
  function LastIndex(s: string, c: char): (r: Position)
    ensures r.At? ==> r.i < |s| && s[r.i] == c && forall k :: r.i < k < |s| ==> s[k] != c
    ensures r.Absent? ==> forall k :: 0 <= k < |s| ==> s[k] != c
  {
    if |s| == 0 then Absent
    else if s[|s| - 1] == c then At(|s| - 1)
    else LastIndex(s[..|s| - 1], c)
  }

  /** The position of the first `c` in `s` at or after `from`. */
  function IndexFrom(s: string, c: char, from: nat): (r: Position)
    ensures r.At? ==> from <= r.i < |s| && s[r.i] == c && forall k :: from <= k < r.i ==> s[k] != c
    ensures r.Absent? ==> forall k :: from <= k < |s| ==> s[k] != c
    decreases |s| - from
  {
    if from >= |s| then Absent
    else if s[from] == c then At(from)
    else IndexFrom(s, c, from + 1)
  }

  /** A position in a string, or none. */
  datatype Position = Absent | At(i: nat)

  /** The email check: the `@` must be the last one (nothing after it may be `@`), the `.` must be
      the first one after that `@` (the label cannot contain `.`), and each piece must be
      non-empty and drawn from its class. */
  function EmailOk(s: string): (ok: bool)
    ensures ok <==> EmailMatches(s)
  {
    var core := DropFinalNewline(s);
    var ok := match LastIndex(core, '@')
      case Absent => false
      case At(at) =>
        match IndexFrom(core, '.', at + 1)
        case Absent => false
        case At(dot) =>
          && 0 < at && at + 1 < dot && dot + 1 < |core|
          && AllIn(LocalChar, core, 0, at)
          && AllIn(DomainChar, core, at + 1, dot)
          && AllIn(SuffixChar, core, dot + 1, |core|);
    EmailOkSound(s);
    EmailOkComplete(s);
    ok
  }

  lemma EmailOkSound(s: string)
    ensures var core := DropFinalNewline(s);
            match LastIndex(core, '@')
            case Absent => true
            case At(at) =>
              match IndexFrom(core, '.', at + 1)
              case Absent => true
              case At(dot) =>
                (&& 0 < at && at + 1 < dot && dot + 1 < |core|
                 && AllIn(LocalChar, core, 0, at)
                 && AllIn(DomainChar, core, at + 1, dot)
                 && AllIn(SuffixChar, core, dot + 1, |core|))
                ==> EmailMatches(s)
  {
    var core := DropFinalNewline(s);
    match LastIndex(core, '@')
    case Absent =>
    case At(at) =>
      match IndexFrom(core, '.', at + 1)
      case Absent =>
      case At(dot) =>
        if && 0 < at && at + 1 < dot && dot + 1 < |core|
           && AllIn(LocalChar, core, 0, at)
           && AllIn(DomainChar, core, at + 1, dot)
           && AllIn(SuffixChar, core, dot + 1, |core|) {
          assert EmailSplitAt(s, at, dot, |core|);
        }
  }

  lemma EmailOkComplete(s: string)
    ensures EmailMatches(s) ==>
            var core := DropFinalNewline(s);
            match LastIndex(core, '@')
            case Absent => false
            case At(at) =>
              match IndexFrom(core, '.', at + 1)
              case Absent => false
              case At(dot) =>
                && 0 < at && at + 1 < dot && dot + 1 < |core|
                && AllIn(LocalChar, core, 0, at)
                && AllIn(DomainChar, core, at + 1, dot)
                && AllIn(SuffixChar, core, dot + 1, |core|)
  {
    if EmailMatches(s) {
      EmailCore(s);
    }
  }

  lemma EmailCore(s: string)
    requires EmailMatches(s)
    ensures var core := DropFinalNewline(s);
            match LastIndex(core, '@')
            case Absent => false
            case At(at) =>
              match IndexFrom(core, '.', at + 1)
              case Absent => false
              case At(dot) =>
                && 0 < at && at + 1 < dot && dot + 1 < |core|
                && AllIn(LocalChar, core, 0, at)
                && AllIn(DomainChar, core, at + 1, dot)
                && AllIn(SuffixChar, core, dot + 1, |core|)
  {
    var core := DropFinalNewline(s);
    var at: nat, dot: nat, end: nat :| EmailSplitAt(s, at, dot, end);
    EmailEnd(s, at, dot, end);
    // Nothing after the chosen `@` is an `@`: the label, the dot and the suffix exclude it.
    forall k | at < k < |core| ensures core[k] != '@' {
      if k < dot {
        assert InClass(DomainChar, s[k]);
      } else if k > dot {
        assert InClass(SuffixChar, s[k]);
      }
    }
    LastIndexIs(core, '@', at);
    // No `.` inside the label.
    forall k | at + 1 <= k < dot ensures core[k] != '.' {
      assert InClass(DomainChar, s[k]);
    }
    IndexFromIs(core, '.', at + 1, dot);
  }

  /** Where a match of the email pattern ends: at the end of the text without its final newline. */
  lemma EmailEnd(s: string, at: nat, dot: nat, end: nat)
    requires EmailSplitAt(s, at, dot, end)
    ensures end == |DropFinalNewline(s)|
    ensures forall k :: 0 <= k < end ==> DropFinalNewline(s)[k] == s[k]
  {
    if !(end + 1 == |s| && s[end] == '\n') {
      assert end == |s| && InClass(SuffixChar, s[end - 1]);
    }
  }

  /** The last `c` is at `i` when `s[i]` is `c` and nothing after it is. */
  lemma {:induction false} LastIndexIs(s: string, c: char, i: nat)
    requires i < |s| && s[i] == c && forall k :: i < k < |s| ==> s[k] != c
    ensures LastIndex(s, c) == At(i)
  {
    if i < |s| - 1 {
      LastIndexIs(s[..|s| - 1], c, i);
    }
  }

  /** The first `c` from `from` on is at `i` when `s[i]` is `c` and nothing before it is. */
  lemma {:induction false} IndexFromIs(s: string, c: char, from: nat, i: nat)
    requires from <= i < |s| && s[i] == c && forall k :: from <= k < i ==> s[k] != c
    ensures IndexFrom(s, c, from) == At(i)
    decreases i - from
  {
    if from < i {
      IndexFromIs(s, c, from + 1, i);
    }
  }
}
