/** The part of the translator's configuration (`CS2JSettings`) that the
    walker's helpers consult. */
module Settings {

  datatype CS2JSettings = CS2JSettings(
    /** Rewrite method names to Java's lower-camel convention and move
        imports into the `LCC` packages */
    translatorMakeJavaNamingConventions: bool
  )
}
