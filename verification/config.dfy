/** Encoder configuration: the preset character sets, the options array with
    its defaults, and the constructor's character-set validation. */
module Config {
  import opened Results

  const CROCKFORD: string := "0123456789ABCDEFGHJKMNPQRSTVWXYZ"
  const RFC4648: string := "ABCDEFGHIJKLMNOPQRSTUVWXYZ234567"
  const ZBASE32: string := "ybndrfg8ejkmcpqxot1uwisza345h769"
  const GMP: string := "0123456789ABCDEFGHIJKLMNOPQRSTUV"
  const HEX: string := "0123456789ABCDEFGHIJKLMNOPQRSTUV"

  /** PHP's `empty()` on a string: true for "" and also for "0", that is for
      every string of at most one character that holds no character but '0'. */
  function PhpEmpty(s: string): (r: bool)
    ensures r <==> |s| <= 1 && forall i :: 0 <= i < |s| ==> s[i] == '0'
  {
    s == "" || s == "0"
  }

  /** No character occurs twice. */
  predicate Distinct(s: string)
  {
    forall i, j :: 0 <= i < j < |s| ==> s[i] != s[j]
  }

  /** A validated encoder configuration. `padding` is `None` for `"padding" => false`. */
  datatype Config = Config(alphabet: string, padding: Option<char>, crockford: bool) {

    /** What the constructor guarantees: 32 characters, all different. */
    predicate Valid()
    {
      |alphabet| == 32 && Distinct(alphabet)
    }

    /** `!empty($this->padding())`: the PHP string "0" counts as empty, so a
        padding of '0' is skipped on decode yet never appended on encode. */
    function PadsOutput(): (r: bool)
      ensures r <==> padding.Some? && !PhpEmpty([padding.value])
    {
      padding.Some? && padding.value != '0'
    }
  }

  /** The options array handed to the constructor; `None` marks a key that is absent. */
  datatype Options = Options(
    characters: Option<string>,
    padding: Option<Option<char>>,
    crockford: Option<bool>)

  /** `strlen(count_chars($s, 3))`: the number of different characters in `s`. */
  function UniqueCount(s: string): (n: nat)
    ensures n <= |s|
  {
    if |s| == 0 then 0
    else UniqueCount(s[1..]) + (if s[0] in s[1..] then 0 else 1)
  }

  /** The count of different characters reaches the length exactly when no
      character repeats. */
  lemma {:induction false} UniqueCountDistinct(s: string)
    ensures UniqueCount(s) == |s| <==> Distinct(s)
  {
    if |s| > 0 {
      var t := s[1..];
      UniqueCountDistinct(t);
      if Distinct(s) {
        assert Distinct(t) by {
          forall i, j | 0 <= i < j < |t| ensures t[i] != t[j] {
            assert t[i] == s[i + 1] && t[j] == s[j + 1];
          }
        }
        assert s[0] !in t by {
          forall j | 0 <= j < |t| ensures t[j] != s[0] {
            assert t[j] == s[j + 1];
          }
        }
      }
      if UniqueCount(s) == |s| {
        assert s[0] !in t && UniqueCount(t) == |t|;
        forall i, j | 0 <= i < j < |s| ensures s[i] != s[j] {
          if i == 0 {
            assert s[j] == t[j - 1];
          } else {
            assert s[i] == t[i - 1] && s[j] == t[j - 1];
          }
        }
      }
    }
  }

  /** The constructor (GmpEncoder.php:44-61): options override the defaults
      key by key, then the character set must hold 32 unique characters. */
  function Configure(opts: Options): (r: Result<Config>)
    ensures var chars := opts.characters.GetOr(RFC4648);
      && (r.Success? <==> |chars| == 32 && Distinct(chars))
      && (r.Success? ==>
            && r.value.Valid()
            && r.value.alphabet == chars
            && r.value.padding == opts.padding.GetOr(Some('='))
            && r.value.crockford == opts.crockford.GetOr(false))
      && (r.Failure? ==> r.error == InvalidConfiguration)
  {
    var chars := opts.characters.GetOr(RFC4648);
    UniqueCountDistinct(chars);
    if UniqueCount(chars) != 32 || |chars| != 32 then
      Failure(InvalidConfiguration)
    else
      Success(Config(chars, opts.padding.GetOr(Some('=')), opts.crockford.GetOr(false)))
  }

  /** With no options the encoder uses RFC 4648, padding '=' and no Crockford
      normalisation. */
  lemma DefaultConfiguration()
    ensures Configure(Options(None, None, None)) == Success(Default())
  {
    PresetsAreValid();
  }

  /** The configuration the constructor builds with no options. */
  function Default(): (cfg: Config)
    ensures cfg.Valid() && cfg.PadsOutput()
  {
    PresetsAreValid();
    Config(RFC4648, Some('='), false)
  }

  /** Every preset character set passes the constructor's check. */
  lemma PresetsAreValid()
    ensures Distinct(CROCKFORD) && Distinct(RFC4648) && Distinct(ZBASE32)
    ensures Distinct(GMP) && Distinct(HEX)
  {
    CrockfordDistinct();
    Rfc4648Distinct();
    ZBase32Distinct();
    GmpDistinct();
  }

  /** Each character strictly above the one before it. */
  predicate Ascending(s: string)
  {
    forall i :: 0 <= i < |s| - 1 ==> s[i] < s[i + 1]
  }

  lemma {:induction false} AscendingDistinct(s: string)
    requires Ascending(s)
    ensures Distinct(s)
  {
    forall i, j | 0 <= i < j < |s| ensures s[i] < s[j] {
      AscendingFrom(s, i, j);
    }
  }

  lemma {:induction false} AscendingFrom(s: string, i: nat, j: nat)
    requires Ascending(s) && i < j < |s|
    ensures s[i] < s[j]
    decreases j - i
  {
    if i + 1 < j {
      AscendingFrom(s, i + 1, j);
    }
  }

  lemma CrockfordDistinct()
    ensures Distinct(CROCKFORD)
  {
    assert Ascending(CROCKFORD);
    AscendingDistinct(CROCKFORD);
  }

  lemma GmpDistinct()
    ensures Distinct(GMP)
  {
    assert Ascending(GMP);
    AscendingDistinct(GMP);
  }

  /** The RFC 4648 decoding table (section 6 of RFC 4648). */
  function Rfc4648Value(c: char): int
  {
    if 'A' <= c <= 'Z' then c as int - 'A' as int else c as int - '2' as int + 26
  }

  lemma Rfc4648Distinct()
    ensures Distinct(RFC4648)
  {
    assert forall i :: 0 <= i < 32 ==> Rfc4648Value(RFC4648[i]) == i;
  }

  /** The z-base-32 decoding table. */
  function ZBase32Value(c: char): int
  {
    match c
      case 'y' => 0
      case 'b' => 1
      case 'n' => 2
      case 'd' => 3
      case 'r' => 4
      case 'f' => 5
      case 'g' => 6
      case '8' => 7
      case 'e' => 8
      case 'j' => 9
      case 'k' => 10
      case 'm' => 11
      case 'c' => 12
      case 'p' => 13
      case 'q' => 14
      case 'x' => 15
      case 'o' => 16
      case 't' => 17
      case '1' => 18
      case 'u' => 19
      case 'w' => 20
      case 'i' => 21
      case 's' => 22
      case 'z' => 23
      case 'a' => 24
      case '3' => 25
      case '4' => 26
      case '5' => 27
      case 'h' => 28
      case '7' => 29
      case '6' => 30
      case '9' => 31
      case _ => -1
  }

  lemma ZBase32Distinct()
    ensures Distinct(ZBASE32)
  {
    assert forall i :: 0 <= i < 32 ==> ZBase32Value(ZBASE32[i]) == i;
  }

  /** The constructor rejects a 31-character set and one with a duplicated '0'. */
  lemma RejectsBadCharacterSets()
    ensures Configure(Options(Some("123456789ABCDEFGHIJKLMNOPQRSTUV"), None, None)) == Failure(InvalidConfiguration)
    ensures Configure(Options(Some("00123456789ABCDEFGHIJKLMNOPQRSTUV"), None, None)) == Failure(InvalidConfiguration)
    ensures Configure(Options(Some("0023456789ABCDEFGHIJKLMNOPQRSTUV"), None, None)) == Failure(InvalidConfiguration)
  {
    var dup := "0023456789ABCDEFGHIJKLMNOPQRSTUV";
    assert dup[0] == dup[1];
  }
}
