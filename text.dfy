/** Characters and strings as the rules use them. `char.IsLower` and
    `char.ToUpper` are modelled on ASCII letters. */
module Text {

  predicate IsLower(c: char) {
    'a' <= c <= 'z'
  }

  predicate IsUpper(c: char) {
    'A' <= c <= 'Z'
  }

  /** `char.ToUpper`: a lower-case letter becomes its capital, anything else is kept. */
  function ToUpper(c: char): (u: char)
    ensures !IsLower(u)
    ensures IsLower(c) ==> IsUpper(u) && u as int + 32 == c as int
    ensures !IsLower(c) ==> u == c
  {
    if IsLower(c) then (c as int - 32) as char else c
  }

  /** `char.ToUpper(t[0]) + t.Substring(1)`: the rename both naming fixes compute. */
  function PascalCase(t: string): (r: string)
    requires |t| > 0
    ensures |r| == |t| && r[0] == ToUpper(t[0]) && r[1..] == t[1..]
    ensures !IsLower(r[0])
    ensures IsLower(t[0]) ==> IsUpper(r[0])
    ensures !IsLower(t[0]) ==> r == t
  {
    [ToUpper(t[0])] + t[1..]
  }

  /** Renaming is idempotent: a renamed name is renamed to itself. */
  lemma PascalCaseIdempotent(t: string)
    requires |t| > 0
    ensures PascalCase(PascalCase(t)) == PascalCase(t)
  {
  }

  /** `s.StartsWith(prefix)`, compared character by character. */
  predicate StartsWith(s: string, prefix: string) {
    prefix <= s
  }
}
