/** The keys the config file knows (source/arm11/config.c, keyStrings). */
module ConfigKeys {
  import opened ConfigText

  function Digit(n: nat): char
    requires 1 <= n <= 9
  {
    "123456789"[n - 1]
  }

  function KeyString(i: nat): string
    requires i < 23
  {
    if i < 9 then "BOOT_OPTION" + [Digit(i + 1)]
    else if i == 9 then "SPLASH_SCREEN"
    else if i < 19 then "BOOT_OPTION" + [Digit(i - 9)] + "_BUTTONS"
    else if i == 19 then "BOOT_MODE"
    else if i == 20 then "DEV_MODE"
    else if i == 21 then "RAM_FIRM_BOOT"
    else "SPLASH_DURATION"
  }

  function KeyStrings(): (keys: seq<string>)
    ensures |keys| == 23 && forall i :: 0 <= i < 23 ==> keys[i] == KeyString(i)
  {
    seq(23, i requires 0 <= i < 23 => KeyString(i))
  }

  // The key's index can be read off its length and two of its characters.
  function IndexOf(s: string): int
    requires |s| >= 8
  {
    if |s| == 12 then s[11] as int - '1' as int
    else if |s| == 20 then 10 + (s[11] as int - '1' as int)
    else if |s| == 9 then 19
    else if |s| == 8 then 20
    else if |s| == 15 then 22
    else if s[0] == 'S' then 9 else 21
  }

  lemma KeyIsIndexed(i: nat)
    requires i < 23
    ensures |KeyString(i)| >= 8 && IndexOf(KeyString(i)) == i
  {
  }

  lemma CleanConcat(a: string, b: string)
    requires Clean(a) && Clean(b)
    ensures Clean(a + b)
  {
  }

  lemma OptionKeyIsClean(n: nat)
    requires 1 <= n <= 9
    ensures Clean("BOOT_OPTION" + [Digit(n)]) && Clean("BOOT_OPTION" + [Digit(n)] + "_BUTTONS")
  {
    CleanConcat("BOOT_OPTION", [Digit(n)]);
    CleanConcat("BOOT_OPTION" + [Digit(n)], "_BUTTONS");
  }

  lemma KeyIsClean(i: nat)
    requires i < 23
    ensures Clean(KeyString(i))
  {
    if i < 9 {
      hide Clean;
      OptionKeyIsClean(i + 1);
    } else if 9 < i < 19 {
      hide Clean;
      OptionKeyIsClean(i - 9);
    }
  }

  // No key is another, none contains a space, an equals sign or an end of line.
  lemma KeyStringsAreGood()
    ensures GoodKeys(KeyStrings())
  {
    hide KeyString;
    var keys := KeyStrings();
    forall k | 0 <= k < 23 ensures keys[k] != "" && Clean(keys[k]) {
      KeyIsIndexed(k);
      KeyIsClean(k);
    }
    forall i, j | 0 <= i < j < 23 ensures keys[i] != keys[j] {
      KeyIsIndexed(i);
      KeyIsIndexed(j);
    }
  }
}
