/**
 * The option and setting rules of the Conan recipe: the default options, the
 * removal of fPIC on Windows, the default C++ standard and the minimum-standard
 * check. Settings other than the operating system and the C++ standard play no
 * part in these rules and are not modelled.
 *
 * The C++ standard is a plain level as Conan spells it: 98, 11, 14, 17, 20, 23.
 */
module Recipe {
  import opened Wrappers

  /** The options the recipe declares, with their default values. */
  const DefaultOptions: map<string, bool> := map["shared" := false, "fPIC" := true]

  /** The level configure falls back to when no C++ standard is set. */
  const DefaultCppStd: nat := 17

  /** The oldest standard validate accepts. */
  const MinimumCppStd: nat := 14

  datatype Validation = Accepted | InvalidConfiguration(message: string)

  const TooOldMessage: string := "MyProject requires at least C++14."

  /** The options left after config_options: fPIC is removed on Windows and only there. */
  function OptionsFor(os: string, options: map<string, bool>): (r: map<string, bool>)
    ensures "fPIC" in r <==> "fPIC" in options && os != "Windows"
    ensures forall k :: k in options && (k != "fPIC" || os != "Windows") ==> k in r && r[k] == options[k]
    ensures r.Keys <= options.Keys
  {
    if os == "Windows" then options - {"fPIC"} else options
  }

  /** The standard after configure: the one already set, or the default. */
  function ConfiguredStd(cppstd: Option<nat>): (r: Option<nat>)
    ensures r.Some?
    ensures cppstd.Some? ==> r == cppstd
    ensures cppstd.None? ==> r.value == DefaultCppStd
  {
    if cppstd.None? then Some(DefaultCppStd) else cppstd
  }

  /**
   * validate as the recipe writes it: the level, read as a version number, must not
   * be below 14. A level such as 98 reads as larger than 14.
   */
  function ValidateAsWritten(cppstd: Option<nat>): (r: Validation)
    ensures r == Accepted <==> cppstd.None? || cppstd.value >= MinimumCppStd
    ensures r != Accepted ==> r == InvalidConfiguration(TooOldMessage)
  {
    if cppstd.Some? && cppstd.value < MinimumCppStd then InvalidConfiguration(TooOldMessage)
    else Accepted
  }

  /** The year a standard level names: 98 is 1998, the later ones are 20xx. */
  function StandardYear(level: nat): (y: nat)
    ensures level < 100 ==> y % 100 == level
    ensures level < 100 ==> (y < 2000 <==> level >= 90)
  {
    if level >= 100 then level
    else if level >= 90 then 1900 + level else 2000 + level
  }

  /** validate as evidently intended: reject every standard older than C++14, C++98 included. */
  function Validate(cppstd: Option<nat>): (r: Validation)
    ensures r == Accepted <==> cppstd.None? || StandardYear(cppstd.value) >= StandardYear(MinimumCppStd)
    ensures r != Accepted ==> r == InvalidConfiguration(TooOldMessage)
  {
    if cppstd.Some? && StandardYear(cppstd.value) < StandardYear(MinimumCppStd) then InvalidConfiguration(TooOldMessage)
    else Accepted
  }

  /** The recipe's option values and the two settings its rules read. */
  class ConanRecipe {
    const os: string
    var options: map<string, bool>
    var cppstd: Option<nat>

    /** A fresh recipe carries the default options and the settings given to it. */
    constructor (os: string, cppstd: Option<nat>)
      ensures this.os == os && this.cppstd == cppstd && options == DefaultOptions
    {
      this.os := os;
      this.cppstd := cppstd;
      options := DefaultOptions;
    }

    /** config_options: on Windows the fPIC option is removed. */
    method ConfigOptions()
      modifies this
      ensures options == OptionsFor(os, old(options)) && cppstd == old(cppstd)
    {
      if os == "Windows" {
        options := options - {"fPIC"};
      }
    }

    /** configure: an unset C++ standard becomes 17; a set one is kept. */
    method Configure()
      modifies this
      ensures cppstd == ConfiguredStd(old(cppstd)) && options == old(options)
    {
      if cppstd.None? {
        cppstd := Some(DefaultCppStd);
      }
    }
  }

  /** On every platform but Windows the default options stand; on Windows only shared is left. */
  lemma DefaultOptionsAfterConfig(os: string)
    ensures os != "Windows" ==> OptionsFor(os, DefaultOptions) == DefaultOptions
    ensures os == "Windows" ==> OptionsFor(os, DefaultOptions) == map["shared" := false]
  {
    if os == "Windows" {
      assert OptionsFor(os, DefaultOptions).Keys == {"shared"};
    }
  }

  /** configure is idempotent and never overrides a standard the user set. */
  lemma ConfigureIdempotent(cppstd: Option<nat>)
    ensures ConfiguredStd(ConfiguredStd(cppstd)) == ConfiguredStd(cppstd)
    ensures cppstd.Some? ==> ConfiguredStd(cppstd) == cppstd
  {
  }

  /** After configure the default standard passes validation; exactly the levels 14 and later do. */
  lemma ConfiguredDefaultIsValid()
    ensures Validate(ConfiguredStd(None)) == Accepted
    ensures forall level: nat :: level < 100 ==> (Validate(Some(level)) == Accepted <==> level >= MinimumCppStd && level < 90)
  {
  }

  /** The check as written accepts C++98, which is older than C++14. */
  lemma AsWrittenAcceptsCpp98()
    ensures ValidateAsWritten(Some(98)) == Accepted
    ensures StandardYear(98) < StandardYear(MinimumCppStd)
    ensures Validate(Some(98)) == InvalidConfiguration(TooOldMessage)
  {
  }

  /** Both checks agree on every level from C++11 on, and differ only on the 1990s levels. */
  lemma ChecksAgreeAfter2000(cppstd: Option<nat>)
    requires cppstd.None? || cppstd.value < 90
    ensures Validate(cppstd) == ValidateAsWritten(cppstd)
  {
  }
}
