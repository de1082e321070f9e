/** The choices the settings menus offer and the values they start with. */
module Settings {
  /** The quality choice that asks for no particular height. */
  const BestAvailable: string := "Best available"

  /** The entries of the "Video Quality" menu. */
  const QualityChoices: seq<string> := ["4K (2160p)", "2K (1440p)", "1080p", "720p", "480p", "360p", BestAvailable]

  /** The entries of the "Video Format" menu. */
  const FormatChoices: seq<string> := ["mp4", "webm", "mkv"]

  const DefaultQuality: string := "1080p"

  const DefaultFormat: string := "mp4"

  /** The container a download falls back to when the chosen one is missing. */
  const FallbackFormat: string := "mp4"
}
