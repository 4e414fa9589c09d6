/**
  The slice of the Java platform the modelled code leans on: fixed-width
  integers, nullable results, the exceptions it throws, and the two
  `java.lang.String` operations the particle lookup uses.
 */
module JavaLang {

  /** Java `int`. */
  newtype Int32 = x: int | -0x8000_0000 <= x < 0x8000_0000

  /** Java `short`. */
  newtype Int16 = x: int | -0x8000 <= x < 0x8000

  /** A Java reference that may be `null` (`None`). */
  datatype Option<+T> = None | Some(value: T)

  datatype Result<+T, +E> = Ok(value: T) | Err(error: E)

  /** The exceptions the modelled code can raise. `detail` is the message
      passed to the constructor: `Objects.requireNonNull` passes one, while
      the JVM's own exception from unboxing a `null` Integer is built without
      one (its `getMessage()` may still describe the failure). */
  datatype Exception =
    | NullPointerException(detail: Option<string>)
    | IllegalArgumentException(message: string)

  /** How a call ended: normally, or by throwing. */
  datatype Completion = Normal | Threw(exception: Exception)

  predicate IsUpper(c: char) {
    'A' <= c <= 'Z'
  }

  /** `Character.toLowerCase` on ASCII letters; every other char is kept. */
  function LowerChar(c: char): char {
    if IsUpper(c) then (c as int + 32) as char else c
  }

  /** `String.toLowerCase()`, with the ASCII letters as the only cased characters. */
  function ToLowerCase(s: string): (r: string)
    ensures |r| == |s|
    ensures forall i :: 0 <= i < |s| ==> r[i] == LowerChar(s[i])
    ensures forall i :: 0 <= i < |r| ==> !IsUpper(r[i])
  {
    if |s| == 0 then [] else [LowerChar(s[0])] + ToLowerCase(s[1..])
  }

  /** Lower-casing a second time changes nothing. */
  lemma ToLowerCaseIdempotent(s: string)
    ensures ToLowerCase(ToLowerCase(s)) == ToLowerCase(s)
  {
  }

  /** Reference meaning of "`t` occurs in `s` at position `i`". */
  ghost predicate OccursAt(t: string, s: string, i: int) {
    0 <= i && i + |t| <= |s| && s[i..i + |t|] == t
  }

  ghost predicate OccursIn(t: string, s: string) {
    exists i :: OccursAt(t, s, i)
  }

  /** `s.contains(t)`: true exactly when some window of `s` spells `t`. */
  function Contains(s: string, t: string): (b: bool)
    ensures b <==> OccursIn(t, s)
    decreases |s|
  {
    if |t| > |s| then false
    else if t <= s then
      assert OccursAt(t, s, 0);
      true
    else
      var rest := Contains(s[1..], t);
      assert OccursIn(t, s[1..]) ==> OccursIn(t, s) by {
        if OccursIn(t, s[1..]) {
          var i :| OccursAt(t, s[1..], i);
          assert s[1..][i..i + |t|] == s[i + 1..i + 1 + |t|];
          assert OccursAt(t, s, i + 1);
        }
      }
      assert OccursIn(t, s) ==> OccursIn(t, s[1..]) by {
        if OccursIn(t, s) {
          var i :| OccursAt(t, s, i);
          assert s[1..][i - 1..i - 1 + |t|] == s[i..i + |t|];
          assert OccursAt(t, s[1..], i - 1);
        }
      }
      rest
  }

  /** Every string contains itself, so an exact name also matches by containment. */
  lemma ContainsSelf(s: string)
    ensures Contains(s, s)
  {
  }
}
