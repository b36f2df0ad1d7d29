/** The constants of src/config/hosts.config.ts that the hosts patch depends on. */
module HostsConfig {
  /** The line that opens the managed block of the hosts file. */
  const StartMarker := "#------ Quicken Hosts Start ------"

  /** The line that closes it. */
  const EndMarker := "#------ Quicken Hosts End ------"
}
