/** The fixed numbers of the Topics screen. */
module TopicsConfig {

  /** Number of topic chips on the screen (`topics.length`). */
  const TopicCount: nat := 14

  /** Margin around every chip (`topicContainerMargin`). */
  const TopicContainerMargin: real := 5.0

  /** Horizontal padding of the chip container (`containerPaddingHorizontal`). */
  const ContainerPaddingHorizontal: real := 10.0

  /** The grid may never be dragged right of its resting position. */
  const LeftBound: real := 0.0
}
