/** One typed multimedia record stored under a key of the dictionary. */
module MultimediaItems {

  /** An immutable (content, type) pair. The type tag is meant to be
      1 = text, 2 = sound, 3 = image, 4 = HTML, but the constructor stores
      any integer unchanged: no validation happens here. The destructors
      `content` and `mediaType` are the getters. */
  datatype MultimediaItem = MultimediaItem(content: string, mediaType: int)
}
