/**
 * The configuration the current LDAP source and user conversion read:
 * attribute mappings and feature flags.
 */
module Config {
  import opened Wrappers
  import opened Int32

  /** Opt-in features. */
  datatype FeatureFlag = SsoLogin | VerifyEmail | VerifyPhone | DryRun

  /** The set of enabled features, a list in the configuration file. */
  type FeatureFlags = seq<FeatureFlag>

  predicate IsEnabled(flags: FeatureFlags, flag: FeatureFlag) {
    flag in flags
  }

  /**
   * How an attribute is named in the configuration: a bare name, or a
   * name together with whether its values are to be read as binary.
   */
  datatype AttributeMapping =
    | NoBinaryOption(name: string)
    | OptionalBinary(name: string, isBinary: bool)

  /** The mapping asks for binary values. */
  predicate IsBinary(m: AttributeMapping) {
    m.OptionalBinary? && m.isBinary
  }

  /** The attribute name, whichever way it was written. */
  function GetName(m: AttributeMapping): (r: string)
    ensures r == m.name
  {
    match m
    case NoBinaryOption(name) => name
    case OptionalBinary(name, _) => name
  }

  /** How a mapping is shown in messages: its name. */
  function Display(m: AttributeMapping): (r: string)
    ensures r == GetName(m)
  {
    GetName(m)
  }

  /** Which directory attribute holds each user field. */
  datatype LdapAttributesMapping = LdapAttributesMapping(
    firstName: AttributeMapping,
    lastName: AttributeMapping,
    preferredUsername: AttributeMapping,
    email: AttributeMapping,
    phone: AttributeMapping,
    userId: AttributeMapping,
    status: AttributeMapping,
    disableBitmasks: seq<int32>,
    lastModified: Option<AttributeMapping>)

  /**
   * The parts of the sync configuration that user conversion reads: the
   * directory attribute mapping, the feature flags and the identity
   * provider to link users with.
   */
  datatype SyncConfig = SyncConfig(
    attributes: LdapAttributesMapping,
    featureFlags: FeatureFlags,
    idpId: string)
}
