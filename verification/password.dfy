/** The password generator script: the length prompt loop, the y/n
    questions, the character pool and the loop that draws the password.
    Console input is a sequence of answers; `random.choice` is an arbitrary
    draw function whose value, reduced modulo the pool size, is the index
    chosen. */
module PasswordGen {
  import opened Wrappers

  const Lowercase: string := "abcdefghijklmnopqrstuvwxyz"
  const Uppercase: string := "ABCDEFGHIJKLMNOPQRSTUVWXYZ"
  const Numbers: string := "0123456789"
  const Symbols: string := "!@#$%^&*()_+-=[]{}|;:,.<>/?"

  const MinLength: int := 10
  const MaxLength: int := 32

  /** What the prompts settle: the length and the three character classes. */
  datatype Choices = Choices(length: nat, upper: bool, nums: bool, symbols: bool)

  predicate LengthAccepted(n: int) {
    MinLength <= n <= MaxLength
  }

  /** The `while True` prompt loop: the first answer that passes both the
      lower and the upper bound check; every earlier answer was rejected.
      None when the answers run out before one is accepted. */
  function FirstAccepted(lengths: seq<int>): (r: Option<nat>)
    ensures r.None? <==> forall i :: 0 <= i < |lengths| ==> !LengthAccepted(lengths[i])
    ensures r.Some? ==> exists i :: 0 <= i < |lengths| && lengths[i] == r.value
                          && LengthAccepted(lengths[i])
                          && forall k :: 0 <= k < i ==> !LengthAccepted(lengths[k])
  {
    if |lengths| == 0 then None
    else if lengths[0] < MinLength then FirstAccepted(lengths[1..])
    else if lengths[0] > MaxLength then FirstAccepted(lengths[1..])
    else Some(lengths[0] as nat)
  }

  /** `input(...).lower() == "y"`. */
  predicate IsYes(answer: string) {
    answer == "y" || answer == "Y"
  }

  /** The choices the prompts produce: the three questions are asked once,
      after a length has been accepted. */
  function ReadChoices(lengths: seq<int>, upperAnswer: string, numsAnswer: string, symbolsAnswer: string)
    : (r: Option<Choices>)
    ensures r.None? <==> forall i :: 0 <= i < |lengths| ==> !LengthAccepted(lengths[i])
    ensures r.Some? ==> LengthAccepted(r.value.length)
    ensures r.Some? ==> FirstAccepted(lengths) == Some(r.value.length)
    ensures r.Some? ==> && r.value.upper == IsYes(upperAnswer)
                        && r.value.nums == IsYes(numsAnswer)
                        && r.value.symbols == IsYes(symbolsAnswer)
  {
    match FirstAccepted(lengths)
    case None => None
    case Some(n) => Some(Choices(n, IsYes(upperAnswer), IsYes(numsAnswer), IsYes(symbolsAnswer)))
  }

  /** A rejected length re-prompts and changes nothing else. */
  lemma RejectedLengthReprompts(n: int, rest: seq<int>, upperAnswer: string, numsAnswer: string, symbolsAnswer: string)
    requires !LengthAccepted(n)
    ensures ReadChoices([n] + rest, upperAnswer, numsAnswer, symbolsAnswer)
         == ReadChoices(rest, upperAnswer, numsAnswer, symbolsAnswer)
  {
    assert ([n] + rest)[1..] == rest;
  }

  /** The character pool: lowercase first, then each chosen class in the
      fixed order uppercase, numbers, symbols. */
  function Pool(upper: bool, nums: bool, symbols: bool): (p: string)
    ensures var u := if upper then |Uppercase| else 0;
            var d := if nums then |Numbers| else 0;
            var s := if symbols then |Symbols| else 0;
            && |p| == |Lowercase| + u + d + s
            && p[..|Lowercase|] == Lowercase
            && (upper ==> p[|Lowercase|..|Lowercase| + u] == Uppercase)
            && (nums ==> p[|Lowercase| + u..|Lowercase| + u + d] == Numbers)
            && (symbols ==> p[|p| - s..] == Symbols)
    ensures forall c :: c in p <==>
      || c in Lowercase
      || (upper && c in Uppercase)
      || (nums && c in Numbers)
      || (symbols && c in Symbols)
  {
    var p1 := Lowercase;
    var p2 := if upper then p1 + Uppercase else p1;
    var p3 := if nums then p2 + Numbers else p2;
    var p4 := if symbols then p3 + Symbols else p3;
    assert p4[..|p3|] == p3 && p3[..|p2|] == p2 && p2[..|p1|] == p1;
    assert p4[..|p2|] == p2 by { assert p4[..|p2|] == p4[..|p3|][..|p2|]; }
    p4
  }

  /** The pool is never empty, so the script's `exit()` branch is dead. */
  lemma PoolNonEmpty(upper: bool, nums: bool, symbols: bool)
    ensures |Pool(upper, nums, symbols)| >= 26
    ensures Pool(upper, nums, symbols)[0] == 'a'
  {
    var p := Pool(upper, nums, symbols);
    assert p[..|Lowercase|][0] == p[0];
  }

  /** `draw(i)` stands for the `i`-th call of `random.choice`. */
  ghost predicate Drawn(pool: string, draw: nat -> nat, password: string)
    requires pool != []
  {
    forall i :: 0 <= i < |password| ==> password[i] == pool[draw(i) % |pool|]
  }

  /** The `for` loop: `length` draws from the pool, appended in order. */
  method BuildPassword(pool: string, length: nat, draw: nat -> nat) returns (password: string)
    requires pool != []
    ensures |password| == length
    ensures forall i :: 0 <= i < length ==> password[i] == pool[draw(i) % |pool|]
    ensures forall c :: c in password ==> c in pool
  {
    password := "";
    var i := 0;
    while i < length
      invariant 0 <= i <= length
      invariant |password| == i
      invariant forall k :: 0 <= k < i ==> password[k] == pool[draw(k) % |pool|]
    {
      password := password + [pool[draw(i) % |pool|]];
      i := i + 1;
    }
  }

  function IndexOf(s: string, c: char): (k: nat)
    requires c in s
    ensures k < |s| && s[k] == c
  {
    if s[0] == c then 0 else 1 + IndexOf(s[1..], c)
  }

  /** Every string over the pool is a possible password: membership in the
      pool is all the generator constrains. */
  lemma EveryPasswordReachable(pool: string, password: string)
    requires pool != []
    requires forall i :: 0 <= i < |password| ==> password[i] in pool
    ensures exists draw: nat -> nat :: Drawn(pool, draw, password)
  {
    var draw: nat -> nat := (i: nat) => if i < |password| && password[i] in pool then IndexOf(pool, password[i]) else 0;
    forall i | 0 <= i < |password| ensures password[i] == pool[draw(i) % |pool|] {
      var k := IndexOf(pool, password[i]);
      assert draw(i) == k;
      assert k % |pool| == k;
    }
    assert Drawn(pool, draw, password);
  }

  lemma OnlyLowercaseA()
    ensures 'a' !in Uppercase && 'a' !in Numbers && 'a' !in Symbols
  {
    assert 'a' !in Uppercase;
    assert 'a' !in Numbers;
  }

  /** A chosen class need not occur: always drawing index 0 yields a
      password of lowercase 'a's whatever was chosen. */
  lemma ChosenClassMayBeAbsent(upper: bool, nums: bool, symbols: bool, password: string)
    requires forall i :: 0 <= i < |password| ==> password[i] == 'a'
    ensures Drawn(Pool(upper, nums, symbols), _ => 0, password)
    ensures forall c :: c in password ==> c !in Uppercase && c !in Numbers && c !in Symbols
  {
    var pool := Pool(upper, nums, symbols);
    PoolNonEmpty(upper, nums, symbols);
    var zero: nat -> nat := _ => 0;
    forall i | 0 <= i < |password| ensures password[i] == pool[zero(i) % |pool|] {
      assert zero(i) % |pool| == 0;
    }
    OnlyLowercaseA();
    forall c | c in password ensures c == 'a' {
      var i :| 0 <= i < |password| && password[i] == c;
    }
  }

  /** The whole script: prompts, pool, password. None when the length
      answers run out before one is accepted. */
  method Generate(lengths: seq<int>, upperAnswer: string, numsAnswer: string, symbolsAnswer: string,
                  draw: nat -> nat)
    returns (password: Option<string>)
    ensures password.None? <==> forall i :: 0 <= i < |lengths| ==> !LengthAccepted(lengths[i])
    ensures password.Some? ==> FirstAccepted(lengths) == Some(|password.value|)
    ensures password.Some? ==> LengthAccepted(|password.value|)
    ensures password.Some? ==> forall c :: c in password.value ==>
      c in Pool(IsYes(upperAnswer), IsYes(numsAnswer), IsYes(symbolsAnswer))
    ensures password.Some? && !IsYes(upperAnswer) && !IsYes(numsAnswer) && !IsYes(symbolsAnswer) ==>
      forall c :: c in password.value ==> c in Lowercase
  {
    var choices := ReadChoices(lengths, upperAnswer, numsAnswer, symbolsAnswer);
    if choices.None? {
      return None;
    }
    var pool := Pool(choices.value.upper, choices.value.nums, choices.value.symbols);
    PoolNonEmpty(choices.value.upper, choices.value.nums, choices.value.symbols);
    // the script's `if full_pool == ""` guard never fires
    var pw := BuildPassword(pool, choices.value.length, draw);
    return Some(pw);
  }
}
