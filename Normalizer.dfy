/**
 The two file-name normalizers of a snapshot test. Each takes a base file
 name and an option mask of its own vocabulary; for each of device model, OS
 version and screen size whose bit is set it appends `_` and that descriptor
 at the end of the name, in that fixed order, and then sanitizes the whole
 string. The descriptors, read from UIKit by the original, are injected as an
 `Environment`; the screen size arrives already formatted. Both entry points
 share one helper parameterized by three booleans.
 */
module FileNameNormalization {
  import opened SnapshotOptions
  import opened FileNameSanitizer

  /** The environment descriptors: device model, OS version and screen size. */
  datatype Environment = Environment(deviceModel: string, systemVersion: string, screenSize: string)

  /** The piece a descriptor contributes: `_` and the descriptor when included, nothing otherwise. */
  function Descriptor(included: bool, value: string): string {
    if included then "_" + value else ""
  }

  /**
   What is appended after the base name: the selected descriptors, each
   behind `_`, in the fixed order device, OS, screen size.
   */
  function DescriptorSuffix(device: bool, os: bool, screenSize: bool, env: Environment): string {
    Descriptor(device, env.deviceModel) + Descriptor(os, env.systemVersion) + Descriptor(screenSize, env.screenSize)
  }

  /** The environment with each of its descriptors sanitized. */
  function SanitizedEnvironment(env: Environment, invalid: CharClass): Environment {
    Environment(Sanitize(env.deviceModel, invalid), Sanitize(env.systemVersion, invalid), Sanitize(env.screenSize, invalid))
  }

  /** Sanitizing a descriptor piece sanitizes the descriptor and keeps the `_` before it. */
  lemma SanitizeDescriptor(included: bool, value: string, invalid: CharClass)
    ensures Sanitize(Descriptor(included, value), invalid) == Descriptor(included, Sanitize(value, invalid))
  {
    if included {
      SanitizeConcat("_", value, invalid);
    }
  }

  /** Sanitizing the appended descriptors is appending the sanitized descriptors. */
  lemma SanitizeDescriptorSuffix(device: bool, os: bool, screenSize: bool, env: Environment, invalid: CharClass)
    ensures Sanitize(DescriptorSuffix(device, os, screenSize, env), invalid)
            == DescriptorSuffix(device, os, screenSize, SanitizedEnvironment(env, invalid))
  {
    var d, o, s := Descriptor(device, env.deviceModel), Descriptor(os, env.systemVersion),
                   Descriptor(screenSize, env.screenSize);
    SanitizeConcat(d + o, s, invalid);
    SanitizeConcat(d, o, invalid);
    SanitizeDescriptor(device, env.deviceModel, invalid);
    SanitizeDescriptor(os, env.systemVersion, invalid);
    SanitizeDescriptor(screenSize, env.screenSize, invalid);
  }

  /**
   The shared normalizer: the base name with the selected descriptors
   appended, then sanitized. Its result is sanitized, and it is the sanitized
   base name followed, in the order device, OS, screen size, by `_` and the
   sanitized descriptor for exactly those flags that are true.
   */
  function NormalizedFileName(fileName: string, device: bool, os: bool, screenSize: bool,
                              env: Environment, invalid: CharClass): (r: string)
    ensures IsSanitized(r, invalid)
    ensures r == Sanitize(fileName, invalid) + DescriptorSuffix(device, os, screenSize, SanitizedEnvironment(env, invalid))
  {
    var suffix := DescriptorSuffix(device, os, screenSize, env);
    SanitizeConcat(fileName, suffix, invalid);
    SanitizeDescriptorSuffix(device, os, screenSize, env, invalid);
    Sanitize(fileName + suffix, invalid)
  }

  /** FBDeviceAgnosticNormalizedFileNameFromOption. */
  function DeviceAgnosticNormalizedFileName(fileName: string, option: AgnosticOption,
                                            env: Environment, invalid: CharClass): (r: string)
    ensures IsSanitized(r, invalid)
    ensures Sanitize(fileName, invalid) <= r
    ensures r == Sanitize(fileName, invalid)
                 + DescriptorSuffix(option.Has(AgnosticDevice), option.Has(AgnosticOS), option.Has(AgnosticScreenSize),
                                    SanitizedEnvironment(env, invalid))
  {
    NormalizedFileName(fileName, option.Has(AgnosticDevice), option.Has(AgnosticOS),
                       option.Has(AgnosticScreenSize), env, invalid)
  }

  /** FBFileNameIncludeNormalizedFileNameFromOption. */
  function FileNameIncludeNormalizedFileName(fileName: string, option: FileNameIncludeOption,
                                             env: Environment, invalid: CharClass): (r: string)
    ensures IsSanitized(r, invalid)
    ensures Sanitize(fileName, invalid) <= r
    ensures r == Sanitize(fileName, invalid)
                 + DescriptorSuffix(option.Has(IncludeDevice), option.Has(IncludeOS), option.Has(IncludeScreenSize),
                                    SanitizedEnvironment(env, invalid))
  {
    NormalizedFileName(fileName, option.Has(IncludeDevice), option.Has(IncludeOS),
                       option.Has(IncludeScreenSize), env, invalid)
  }

  /** A mask with none of the three descriptor bits yields exactly the sanitized base name. */
  lemma AgnosticWithoutDescriptorBits(fileName: string, option: AgnosticOption, env: Environment, invalid: CharClass)
    requires !option.Has(AgnosticDevice) && !option.Has(AgnosticOS) && !option.Has(AgnosticScreenSize)
    ensures DeviceAgnosticNormalizedFileName(fileName, option, env, invalid) == Sanitize(fileName, invalid)
  {
  }

  /** A mask with none of the three descriptor bits yields exactly the sanitized base name. */
  lemma IncludeWithoutDescriptorBits(fileName: string, option: FileNameIncludeOption, env: Environment, invalid: CharClass)
    requires !option.Has(IncludeDevice) && !option.Has(IncludeOS) && !option.Has(IncludeScreenSize)
    ensures FileNameIncludeNormalizedFileName(fileName, option, env, invalid) == Sanitize(fileName, invalid)
  {
  }

  /** The `None` option of either vocabulary appends nothing. */
  lemma NoneOptionAppendsNothing(fileName: string, env: Environment, invalid: CharClass)
    ensures DeviceAgnosticNormalizedFileName(fileName, AgnosticNone, env, invalid) == Sanitize(fileName, invalid)
    ensures FileNameIncludeNormalizedFileName(fileName, IncludeNone, env, invalid) == Sanitize(fileName, invalid)
  {
  }

  /**
   With all three descriptor bits set the descriptors follow the base name in
   the order device, OS, screen size, whatever else the mask holds.
   */
  lemma AllDescriptorsInFixedOrder(fileName: string, option: FileNameIncludeOption, env: Environment, invalid: CharClass)
    requires option.Has(IncludeDevice) && option.Has(IncludeOS) && option.Has(IncludeScreenSize)
    ensures FileNameIncludeNormalizedFileName(fileName, option, env, invalid)
            == Sanitize(fileName, invalid)
               + ("_" + Sanitize(env.deviceModel, invalid)
                  + ("_" + Sanitize(env.systemVersion, invalid))
                  + ("_" + Sanitize(env.screenSize, invalid)))
  {
  }

  /** The two vocabularies give the same name for the same bit pattern. */
  lemma VocabulariesAgree(fileName: string, bits: Mask, env: Environment, invalid: CharClass)
    ensures DeviceAgnosticNormalizedFileName(fileName, AgnosticOption(bits), env, invalid)
            == FileNameIncludeNormalizedFileName(fileName, FileNameIncludeOption(bits), env, invalid)
  {
  }

  /**
   Without descriptor bits normalization is idempotent, and it leaves an
   already sanitized name unchanged.
   */
  lemma AgnosticIdempotentWithoutDescriptorBits(fileName: string, option: AgnosticOption,
                                                env: Environment, invalid: CharClass)
    requires !option.Has(AgnosticDevice) && !option.Has(AgnosticOS) && !option.Has(AgnosticScreenSize)
    ensures var once := DeviceAgnosticNormalizedFileName(fileName, option, env, invalid);
            DeviceAgnosticNormalizedFileName(once, option, env, invalid) == once
    ensures IsSanitized(fileName, invalid) ==> DeviceAgnosticNormalizedFileName(fileName, option, env, invalid) == fileName
  {
    SanitizeIdempotent(fileName, invalid);
    SanitizeFixedPoints(fileName, invalid);
  }

  /**
   Without descriptor bits normalization is idempotent, and it leaves an
   already sanitized name unchanged.
   */
  lemma IncludeIdempotentWithoutDescriptorBits(fileName: string, option: FileNameIncludeOption,
                                               env: Environment, invalid: CharClass)
    requires !option.Has(IncludeDevice) && !option.Has(IncludeOS) && !option.Has(IncludeScreenSize)
    ensures var once := FileNameIncludeNormalizedFileName(fileName, option, env, invalid);
            FileNameIncludeNormalizedFileName(once, option, env, invalid) == once
    ensures IsSanitized(fileName, invalid) ==> FileNameIncludeNormalizedFileName(fileName, option, env, invalid) == fileName
  {
    SanitizeIdempotent(fileName, invalid);
    SanitizeFixedPoints(fileName, invalid);
  }

  /**
   With a descriptor flag true, normalizing an already normalized name
   appends the descriptors a second time: the result is the first name
   followed by the same descriptor pieces again, so it is strictly longer.
   */
  lemma NormalizedTwiceAppendsAgain(fileName: string, device: bool, os: bool, screenSize: bool,
                                    env: Environment, invalid: CharClass)
    requires device || os || screenSize
    ensures var once := NormalizedFileName(fileName, device, os, screenSize, env, invalid);
            var twice := NormalizedFileName(once, device, os, screenSize, env, invalid);
            |twice| > |once| && once <= twice
            && twice[|once|..] == once[|Sanitize(fileName, invalid)|..]
  {
    var base := Sanitize(fileName, invalid);
    var once := NormalizedFileName(fileName, device, os, screenSize, env, invalid);
    var pieces := DescriptorSuffix(device, os, screenSize, SanitizedEnvironment(env, invalid));
    assert once == base + pieces;
    assert |pieces| > 0;
    assert once[|base|..] == pieces;
    SanitizeFixedPoints(once, invalid);
    assert Sanitize(once, invalid) == once;
    var twice := NormalizedFileName(once, device, os, screenSize, env, invalid);
    assert twice == once + pieces;
    assert twice[|once|..] == pieces;
  }

  /** The include-vocabulary form of NormalizedTwiceAppendsAgain. */
  lemma RenormalizingAppendsAgain(fileName: string, option: FileNameIncludeOption,
                                  env: Environment, invalid: CharClass)
    requires option.Has(IncludeDevice) || option.Has(IncludeOS) || option.Has(IncludeScreenSize)
    ensures var once := FileNameIncludeNormalizedFileName(fileName, option, env, invalid);
            var twice := FileNameIncludeNormalizedFileName(once, option, env, invalid);
            |twice| > |once| && once <= twice
            && twice[|once|..] == once[|Sanitize(fileName, invalid)|..]
  {
    NormalizedTwiceAppendsAgain(fileName, option.Has(IncludeDevice), option.Has(IncludeOS),
                                option.Has(IncludeScreenSize), env, invalid);
  }

  /** "My Test" with no descriptors becomes "My_Test" when space is in the class and its letters are not. */
  lemma SpaceBecomesUnderscore(env: Environment, invalid: CharClass)
    requires invalid(' ')
    requires !invalid('M') && !invalid('y') && !invalid('T') && !invalid('e') && !invalid('s') && !invalid('t')
    ensures DeviceAgnosticNormalizedFileName("My Test", AgnosticNone, env, invalid) == "My_Test"
  {
    NoneOptionAppendsNothing("My Test", env, invalid);
    SanitizeMyTest(invalid);
  }

  /** With only the device bit, the sanitized device model follows the name after `_`. */
  lemma DeviceOnlyAppendsDeviceModel(fileName: string, env: Environment, invalid: CharClass)
    ensures DeviceAgnosticNormalizedFileName(fileName, AgnosticDevice, env, invalid)
            == Sanitize(fileName, invalid) + ("_" + Sanitize(env.deviceModel, invalid))
  {
    var d := "_" + Sanitize(env.deviceModel, invalid);
    assert d + "" + "" == d;
  }
}
