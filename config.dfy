/** Application-wide constants of the comparison service. */
module Config {
  /** How long, in seconds, an uploaded or generated file may stay in the upload folder (24 hours). */
  const FileLifetime: int := 60 * 60 * 24

  /** The file extensions (lower case, without the dot) accepted for upload. */
  const AllowedExtensions: set<string> := {"docx"}
}
