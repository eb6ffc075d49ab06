/**
 * The PR record shapes that the `gh pr list --json ...` output decodes into
 * (`GhCliAuthor`, `GhCliLabel`, `GhCliPr`), the `"bot"` default for a missing
 * author name, and the decimal rendering that `format!` gives a `usize`.
 */
module Records {
  import opened Wrappers

  /** One label of a PR, in the order the fetch returned it. */
  datatype Label = Label(name: string, color: string)

  /** The author of a PR; only the display name is kept. */
  datatype Author = Author(name: string)

  /** One open PR: it asks to merge branch `head` into branch `base`. */
  datatype Pr = Pr(
    author: Author,
    base: string,
    head: string,
    number: nat,
    title: string,
    url: string,
    labels: seq<Label>)

  /** The author object as it arrives upstream: the name may be absent. */
  datatype RawAuthor = RawAuthor(name: Option<string>)

  /** The placeholder name used when upstream data carries no author name. */
  function Bot(): string {
    "bot"
  }

  /** Decoding an author: a present name is kept, an absent one becomes `"bot"`. */
  function DecodeAuthor(raw: RawAuthor): (a: Author)
    ensures raw.name.Some? ==> a.name == raw.name.value
    ensures raw.name.None? ==> a.name == "bot"
  {
    match raw.name
    case Some(n) => Author(n)
    case None => Author(Bot())
  }

  // ---------------------------------------------------------------------------
  // Decimal rendering of naturals (what `{number}` and `{}` print for unsigned
  // integers).

  predicate IsDigit(c: char) {
    '0' <= c <= '9'
  }

  function DigitChar(d: nat): (c: char)
    requires d < 10
    ensures IsDigit(c) && c as int - '0' as int == d
  {
    ('0' as int + d) as char
  }

  /** The shortest decimal spelling of `n`: digits only, no leading zero. */
  function Decimal(n: nat): (s: string)
    ensures |s| >= 1
    ensures forall i :: 0 <= i < |s| ==> IsDigit(s[i])
    ensures |s| > 1 ==> s[0] != '0'
    decreases n
  {
    if n < 10 then [DigitChar(n)] else Decimal(n / 10) + [DigitChar(n % 10)]
  }

  /** The number a string of digits denotes (the reading direction of `Decimal`). */
  function DigitsValue(s: string): nat
    requires forall i :: 0 <= i < |s| ==> IsDigit(s[i])
  {
    if s == [] then 0
    else
      assert IsDigit(s[|s| - 1]);
      DigitsValue(s[..|s| - 1]) * 10 + (s[|s| - 1] as int - '0' as int)
  }

  /** Reading back the decimal spelling of `n` gives `n`: distinct PR numbers print differently. */
  lemma {:induction false} DecimalRoundTrip(n: nat)
    ensures DigitsValue(Decimal(n)) == n
    decreases n
  {
    var s := Decimal(n);
    if n >= 10 {
      DecimalRoundTrip(n / 10);
      assert s[..|s| - 1] == Decimal(n / 10);
    }
  }

  lemma DecimalInjective(m: nat, n: nat)
    requires Decimal(m) == Decimal(n)
    ensures m == n
  {
    DecimalRoundTrip(m);
    DecimalRoundTrip(n);
  }
}
