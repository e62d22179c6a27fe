/** The currency prompt of the client's Main (Client/Program.cs): read a line,
    upper-case it, accept it only if it is a key of the fixed table of valid
    currencies, otherwise ask again. */
module Currency {
  import opened Protocol

  /** `validCurrencies`: code to display name. Lookups use the default,
      case-sensitive string comparer. */
  const ValidCurrencies: map<string, string> := map[
    "USD" := "United States Dollar",
    "EUR" := "Euro",
    "QAR" := "Qatari Riyal",
    "LBP" := "Lebanese Pound"]

  /** String.ToUpper on one character, for ASCII letters. */
  function UpperChar(c: char): (u: char)
    ensures 'a' <= c <= 'z' ==> 'A' <= u <= 'Z' && u as int == c as int - 32
    ensures !('a' <= c <= 'z') ==> u == c
  {
    if 'a' <= c <= 'z' then (c as int - 32) as char else c
  }

  /** String.ToUpper: upper-cases every character and keeps the length. */
  function ToUpper(s: string): (r: string)
    ensures |r| == |s|
    ensures forall i :: 0 <= i < |s| ==> r[i] == UpperChar(s[i])
  {
    if s == [] then [] else [UpperChar(s[0])] + ToUpper(s[1..])
  }

  /** An independent statement of case-insensitive equality, used to say
      which inputs the prompt accepts. */
  predicate EqualsIgnoreCase(a: string, b: string)
  {
    |a| == |b| && forall i :: 0 <= i < |a| ==> UpperChar(a[i]) == UpperChar(b[i])
  }

  predicate IsUpperCase(s: string)
  {
    forall i :: 0 <= i < |s| ==> UpperChar(s[i]) == s[i]
  }

  /** The table holds exactly the four codes, each already in upper case. */
  lemma ValidCodesAreUpperCase()
    ensures ValidCurrencies.Keys == {"USD", "EUR", "QAR", "LBP"}
    ensures forall c :: c in ValidCurrencies ==> IsUpperCase(c)
  {
  }

  /** A line is accepted exactly when it spells one of the four codes in any
      mix of upper and lower case. */
  lemma AcceptedIffCaseVariant(line: string)
    ensures ToUpper(line) in ValidCurrencies <==> exists c :: c in ValidCurrencies && EqualsIgnoreCase(line, c)
  {
    var u := ToUpper(line);
    if u in ValidCurrencies {
      assert EqualsIgnoreCase(line, u);
    }
    if c :| c in ValidCurrencies && EqualsIgnoreCase(line, c) {
      ValidCodesAreUpperCase();
      assert u == c;
    }
  }

  /** The line at index k is the first one the prompt accepts. */
  predicate FirstAcceptedAt(lines: seq<string>, k: int)
  {
    0 <= k < |lines| && ToUpper(lines[k]) in ValidCurrencies &&
    forall j :: 0 <= j < k ==> ToUpper(lines[j]) !in ValidCurrencies
  }

  /** The `while (true)` prompt loop over the lines the user types. It stops
      at the first line whose upper-cased form is a valid code and keeps that
      upper-cased form. Running out of input makes Console.ReadLine return
      null, and `.ToUpper()` on it throws: that is the `None` outcome. */
  method ReadCurrency(lines: seq<string>) returns (currency: Option<string>, consumed: nat)
    ensures consumed <= |lines|
    ensures currency.Some? ==>
      0 < consumed && FirstAcceptedAt(lines, consumed - 1) &&
      currency.value == ToUpper(lines[consumed - 1]) && currency.value in ValidCurrencies
    ensures currency.None? ==>
      consumed == |lines| && forall j :: 0 <= j < |lines| ==> ToUpper(lines[j]) !in ValidCurrencies
  {
    consumed := 0;
    while true
      invariant consumed <= |lines|
      invariant forall j :: 0 <= j < consumed ==> ToUpper(lines[j]) !in ValidCurrencies
      decreases |lines| - consumed
    {
      if consumed == |lines| {
        return None, consumed;
      }
      var line := ToUpper(lines[consumed]);
      consumed := consumed + 1;
      if line in ValidCurrencies {
        currency := Some(line);
        break;
      }
    }
  }

  /** What the prompt stores is already upper case: upper-casing it again
      changes nothing. */
  lemma AcceptedCurrencyIsUpperCase(currency: string)
    requires currency in ValidCurrencies
    ensures ToUpper(currency) == currency
  {
  }
}
