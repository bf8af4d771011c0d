/**
 * The older configuration the Zitadel import reads: attributes are plain
 * names and the status is compared as text against a disable value.
 */
module LegacyConfig {
  import opened Wrappers

  /** Opt-in features of this configuration generation. */
  datatype FeatureFlag = SsoLogin | VerifyEmail | VerifyPhone

  datatype LdapAttributesMapping = LdapAttributesMapping(
    firstName: string,
    lastName: string,
    preferredUsername: string,
    email: string,
    phone: string,
    userId: string,
    status: string,
    enableValue: string,
    disableValue: string,
    lastModified: Option<string>)

  /** The Zitadel organisation, project and identity provider to sync into. */
  datatype FamedlyConfig = FamedlyConfig(organizationId: string, projectId: string, idpId: string)

  datatype Config = Config(
    attributes: LdapAttributesMapping,
    famedly: FamedlyConfig,
    featureFlags: seq<FeatureFlag>)
}
